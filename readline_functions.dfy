/**
 * The readline functions `history-search-backward`, `history-search-forward`,
 * `backward-kill-line` and `undo`, acting on a readline interaction.
 *
 * History index -1 means "not browsing the history"; index 0 is the most
 * recent entry, so searching backward moves to larger indices.
 */
module ReadlineFunctions {
  import opened Types
  import opened LineBuffers

  /** The interaction a function is applied to, seen through the calls the functions make. */
  class Interaction {
    var buffer: LineBuffer
    var history: seq<seq<int>>
    var historyIndex: int
    /** Every buffer passed to `refresh`, in order. */
    var refreshed: seq<LineBuffer>
    /** How many times `resume` was called. */
    var resumeCount: nat

    ghost predicate Valid()
      reads this
    {
      buffer.Valid() && -1 <= historyIndex < |history|
    }

    constructor (buffer: LineBuffer, history: seq<seq<int>>, historyIndex: int)
      requires buffer.Valid() && -1 <= historyIndex < |history|
      ensures Valid()
      ensures this.buffer == buffer && this.history == history && this.historyIndex == historyIndex
      ensures refreshed == [] && resumeCount == 0
    {
      this.buffer := buffer;
      this.history := history;
      this.historyIndex := historyIndex;
      refreshed := [];
      resumeCount := 0;
    }

    /** `refresh(b)`: `b` becomes the current line. */
    method Refresh(b: LineBuffer)
      requires b.Valid()
      modifies this
      ensures buffer == b && refreshed == old(refreshed) + [b]
      ensures history == old(history) && historyIndex == old(historyIndex) && resumeCount == old(resumeCount)
    {
      buffer := b;
      refreshed := refreshed + [b];
    }

    method SetHistoryIndex(i: int)
      modifies this
      ensures historyIndex == i
      ensures buffer == old(buffer) && history == old(history) && refreshed == old(refreshed) && resumeCount == old(resumeCount)
    {
      historyIndex := i;
    }

    method Resume()
      modifies this
      ensures resumeCount == old(resumeCount) + 1
      ensures buffer == old(buffer) && history == old(history) && historyIndex == old(historyIndex) && refreshed == old(refreshed)
    {
      resumeCount := resumeCount + 1;
    }
  }

  /** What a history search does: nothing, or load a buffer and move to a history index. */
  datatype SearchOutcome = Stay | Load(buffer: LineBuffer, index: int)

  /** The readline functions of this module, with the names they are bound under. */
  datatype Function = HistorySearchBackwardFunction | HistorySearchForwardFunction | BackwardKillLineFunction | UndoFunction {
    /** `name()`: the name a function is bound under; each name belongs to exactly one function. */
    function Name(): (r: string)
      ensures r == "history-search-backward" <==> this == HistorySearchBackwardFunction
      ensures r == "history-search-forward" <==> this == HistorySearchForwardFunction
      ensures r == "backward-kill-line" <==> this == BackwardKillLineFunction
      ensures r == "undo" <==> this == UndoFunction
    {
      match this
      case HistorySearchBackwardFunction => "history-search-backward"
      case HistorySearchForwardFunction => "history-search-forward"
      case BackwardKillLineFunction => "backward-kill-line"
      case UndoFunction => "undo"
    }
  }

  /** A history entry the search may stop at: not the current line, but agreeing with it before the cursor. */
  predicate Candidate(buf: LineBuffer, line: seq<int>)
    requires buf.Valid()
  {
    !Equals(buf, Some(line)) && MatchBeforeCursor(buf, Some(line))
  }

  /** The upward scan of `history-search-backward` from index `i`. */
  function BackwardScan(buf: LineBuffer, history: seq<seq<int>>, i: nat): SearchOutcome
    requires buf.Valid()
    decreases |history| - i
  {
    if i >= |history| then Stay
    else if Candidate(buf, history[i]) then Load(LineBuffer(history[i], buf.cursor), i)
    else BackwardScan(buf, history, i + 1)
  }

  /**
   * `history-search-backward`: with an empty line, or a line that is exactly
   * the current entry with the cursor at its end, step to the next older entry;
   * otherwise look for the next older entry that matches before the cursor.
   */
  function SearchBackward(buf: LineBuffer, history: seq<seq<int>>, curr: int): SearchOutcome
    requires buf.Valid() && -1 <= curr < |history|
  {
    var applyNext := buf.Size() == 0 ||
      (buf.cursor == buf.Size() && curr >= 0 && Equals(buf, Some(history[curr])) && curr + 1 < |history|);
    if applyNext then
      if curr + 1 < |history| then Load(Loaded(history[curr + 1]), curr + 1) else Stay
    else BackwardScan(buf, history, curr + 1)
  }

  /** The downward scan of `history-search-forward` from index `i`: the first candidate found. */
  function ForwardScan(buf: LineBuffer, history: seq<seq<int>>, i: int): (r: Option<nat>)
    requires buf.Valid() && i < |history|
    ensures r.Some? ==> r.value <= i
    decreases i + 1
  {
    if i < 0 then None
    else if Candidate(buf, history[i]) then Some(i)
    else ForwardScan(buf, history, i - 1)
  }

  /**
   * `history-search-forward`: the first newer entry that matches before the
   * cursor, loaded with the cursor at its end; failing that, the next newer entry.
   */
  function SearchForward(buf: LineBuffer, history: seq<seq<int>>, curr: int): SearchOutcome
    requires buf.Valid() && -1 <= curr < |history|
  {
    match ForwardScan(buf, history, curr - 1)
    case Some(i) => Load(Loaded(history[i]), i)
    case None =>
      if 0 <= curr - 1 < |history| then Load(Loaded(history[curr - 1]), curr - 1) else Stay
  }

  lemma {:induction false} BackwardScanFinds(buf: LineBuffer, history: seq<seq<int>>, i: nat)
    requires buf.Valid()
    ensures match BackwardScan(buf, history, i)
      case Stay => forall j :: i <= j < |history| ==> !Candidate(buf, history[j])
      case Load(b, k) =>
        i <= k < |history| && b == LineBuffer(history[k], buf.cursor) && Candidate(buf, history[k]) &&
        forall j :: i <= j < k ==> !Candidate(buf, history[j])
    decreases |history| - i
  {
    if i < |history| && !Candidate(buf, history[i]) {
      BackwardScanFinds(buf, history, i + 1);
    }
  }

  lemma {:induction false} ForwardScanFinds(buf: LineBuffer, history: seq<seq<int>>, i: int)
    requires buf.Valid() && i < |history|
    ensures match ForwardScan(buf, history, i)
      case None => forall j :: 0 <= j <= i ==> !Candidate(buf, history[j])
      case Some(k) => k <= i && Candidate(buf, history[k]) && forall j :: k < j <= i ==> !Candidate(buf, history[j])
    decreases i + 1
  {
    if i >= 0 && !Candidate(buf, history[i]) {
      ForwardScanFinds(buf, history, i - 1);
    }
  }

  /**
   * `history-search-backward` only ever moves to an older entry, loads that
   * entry, and keeps the cursor where it was unless it stepped to the next entry.
   */
  lemma SearchBackwardMovesOlder(buf: LineBuffer, history: seq<seq<int>>, curr: int)
    requires buf.Valid() && -1 <= curr < |history|
    ensures SearchBackward(buf, history, curr).Load? ==>
      var o := SearchBackward(buf, history, curr);
      curr < o.index < |history| && o.buffer.content == history[o.index] && o.buffer.Valid()
  {
    BackwardScanFinds(buf, history, curr + 1);
  }

  /** With an empty line, `history-search-backward` loads the next older entry, cursor at its end. */
  lemma SearchBackwardEmptyLine(buf: LineBuffer, history: seq<seq<int>>, curr: int)
    requires buf.Valid() && -1 <= curr < |history| && buf.Size() == 0
    ensures SearchBackward(buf, history, curr) ==
      if curr + 1 < |history| then Load(Loaded(history[curr + 1]), curr + 1) else Stay
  {
  }

  /** Having just loaded the current entry (cursor at the end), the next search steps to the next older one. */
  lemma SearchBackwardSteps(buf: LineBuffer, history: seq<seq<int>>, curr: int)
    requires buf.Valid() && 0 <= curr && curr + 1 < |history|
    requires buf == Loaded(history[curr])
    ensures SearchBackward(buf, history, curr) == Load(Loaded(history[curr + 1]), curr + 1)
  {
    EqualsMeans(buf, Some(history[curr]));
  }

  /**
   * Otherwise the search stops at the first older entry that differs from the
   * line but agrees with it before the cursor, keeping the cursor; with none, nothing changes.
   */
  lemma SearchBackwardFirstMatch(buf: LineBuffer, history: seq<seq<int>>, curr: int)
    requires buf.Valid() && -1 <= curr < |history|
    requires buf.Size() != 0
    requires !(buf.cursor == buf.Size() && curr >= 0 && history[curr] == buf.content)
    ensures match SearchBackward(buf, history, curr)
      case Stay => forall j :: curr < j < |history| ==> !Candidate(buf, history[j])
      case Load(b, k) =>
        curr < k < |history| && b == LineBuffer(history[k], buf.cursor) &&
        history[k] != buf.content && buf.cursor <= |history[k]| &&
        history[k][..buf.cursor] == buf.content[..buf.cursor] &&
        forall j :: curr < j < k ==> !Candidate(buf, history[j])
  {
    if curr >= 0 {
      EqualsMeans(buf, Some(history[curr]));
    }
    BackwardScanFinds(buf, history, curr + 1);
    match BackwardScan(buf, history, curr + 1)
    case Stay =>
    case Load(b, k) =>
      EqualsMeans(buf, Some(history[k]));
      MatchBeforeCursorMeans(buf, Some(history[k]));
  }

  /**
   * `history-search-forward` only ever moves to a newer entry, and loads it
   * with the cursor at its end; from index 0 or -1 it does nothing.
   */
  lemma SearchForwardMovesNewer(buf: LineBuffer, history: seq<seq<int>>, curr: int)
    requires buf.Valid() && -1 <= curr < |history|
    ensures curr <= 0 ==> SearchForward(buf, history, curr) == Stay
    ensures SearchForward(buf, history, curr).Load? ==>
      var o := SearchForward(buf, history, curr);
      0 <= o.index < curr && o.buffer == Loaded(history[o.index])
  {
    ForwardScanFinds(buf, history, curr - 1);
  }

  /**
   * `history-search-forward` loads the nearest newer entry that differs from
   * the line but agrees with it before the cursor, and the next newer entry when there is none.
   */
  lemma SearchForwardFirstMatch(buf: LineBuffer, history: seq<seq<int>>, curr: int)
    requires buf.Valid() && 1 <= curr < |history|
    ensures var o := SearchForward(buf, history, curr);
      o.Load? && forall j :: o.index < j < curr ==> !Candidate(buf, history[j])
    ensures var o := SearchForward(buf, history, curr);
      0 <= o.index < curr && (Candidate(buf, history[o.index]) || (o.index == curr - 1 && forall j :: 0 <= j < curr ==> !Candidate(buf, history[j])))
  {
    ForwardScanFinds(buf, history, curr - 1);
  }

  /** `HistorySearchBackward.apply`. */
  method HistorySearchBackward(ia: Interaction)
    requires ia.Valid()
    modifies ia
    ensures ia.Valid()
    ensures ia.history == old(ia.history) && ia.resumeCount == old(ia.resumeCount) + 1
    ensures match SearchBackward(old(ia.buffer), old(ia.history), old(ia.historyIndex))
      case Stay => ia.buffer == old(ia.buffer) && ia.historyIndex == old(ia.historyIndex) && ia.refreshed == old(ia.refreshed)
      case Load(b, i) => ia.buffer == b && ia.historyIndex == i && ia.refreshed == old(ia.refreshed) + [b]
  {
    var buf := ia.buffer;
    var cursor := buf.cursor;
    var history := ia.history;
    var curr := ia.historyIndex;

    var applyNext := false;
    if buf.Size() == 0 {
      applyNext := true;
    }
    if cursor == buf.Size() && curr >= 0 && Equals(buf, Some(history[curr])) {
      var next := curr + 1;
      if next < |history| {
        applyNext := true;
      }
    }

    if applyNext {
      var next := curr + 1;
      if next < |history| {
        ia.Refresh(Loaded(history[next]));
        ia.SetHistoryIndex(next);
      }
    } else {
      var i := curr + 1;
      while i < |history|
        invariant curr + 1 <= i <= |history|
        invariant BackwardScan(buf, history, i) == BackwardScan(buf, history, curr + 1)
        invariant ia.buffer == buf && ia.history == history && ia.historyIndex == curr
        invariant ia.refreshed == old(ia.refreshed) && ia.resumeCount == old(ia.resumeCount)
      {
        var line := history[i];
        if Equals(buf, Some(line)) {
          i := i + 1;
          continue;
        }
        if MatchBeforeCursor(buf, Some(line)) {
          ia.Refresh(LineBuffer(line, cursor));
          ia.SetHistoryIndex(i);
          break;
        }
        i := i + 1;
      }
    }

    ia.Resume();
  }

  /** `HistorySearchForward.apply`. */
  method HistorySearchForward(ia: Interaction)
    requires ia.Valid()
    modifies ia
    ensures ia.Valid()
    ensures ia.history == old(ia.history) && ia.resumeCount == old(ia.resumeCount) + 1
    ensures match SearchForward(old(ia.buffer), old(ia.history), old(ia.historyIndex))
      case Stay => ia.buffer == old(ia.buffer) && ia.historyIndex == old(ia.historyIndex) && ia.refreshed == old(ia.refreshed)
      case Load(b, i) => ia.buffer == b && ia.historyIndex == i && ia.refreshed == old(ia.refreshed) + [b]
  {
    var buf := ia.buffer;
    var history := ia.history;
    var curr := ia.historyIndex;

    var searchStart := curr - 1;

    var found := false;
    var i := searchStart;
    while i >= 0
      invariant i <= searchStart
      invariant !found
      invariant ForwardScan(buf, history, i) == ForwardScan(buf, history, searchStart)
      invariant ia.buffer == buf && ia.historyIndex == curr && ia.refreshed == old(ia.refreshed)
      invariant ia.history == history && ia.resumeCount == old(ia.resumeCount)
    {
      var line := history[i];
      if Equals(buf, Some(line)) {
        i := i - 1;
        continue;
      }
      if MatchBeforeCursor(buf, Some(line)) {
        ia.Refresh(Loaded(line));
        ia.SetHistoryIndex(i);
        found := true;
        break;
      }
      i := i - 1;
    }
    if !found && searchStart >= 0 && searchStart < |history| {
      var line := history[searchStart];
      ia.Refresh(Loaded(line));
      ia.SetHistoryIndex(searchStart);
    }

    ia.Resume();
  }

  /** `BackwardKillLine.apply`: deletes everything before the cursor of a copy of the line. */
  method BackwardKillLine(ia: Interaction)
    requires ia.Valid()
    modifies ia
    ensures ia.Valid()
    ensures ia.buffer == KillBackward(old(ia.buffer))
    ensures ia.refreshed == old(ia.refreshed) + [ia.buffer] && ia.resumeCount == old(ia.resumeCount) + 1
    ensures ia.history == old(ia.history) && ia.historyIndex == old(ia.historyIndex)
  {
    var buf := ia.buffer;
    buf := buf.Delete(-(buf.cursor as int));
    ia.Refresh(buf);
    ia.Resume();
  }

  /** The line that `backward-kill-line` refreshes: `delete(-cursor)` on the current line. */
  function KillBackward(buf: LineBuffer): LineBuffer
    requires buf.Valid()
  {
    buf.Delete(-(buf.cursor as int))
  }

  /** `backward-kill-line` removes exactly the code points before the cursor and keeps the rest. */
  lemma KillBackwardKeepsRest(buf: LineBuffer)
    requires buf.Valid()
    ensures KillBackward(buf) == LineBuffer(buf.content[buf.cursor..], 0)
    ensures buf.cursor == 0 ==> KillBackward(buf) == buf
  {
  }

  /** `Undo.apply`: empties a copy of the line. */
  method Undo(ia: Interaction)
    requires ia.Valid()
    modifies ia
    ensures ia.Valid()
    ensures ia.buffer == old(ia.buffer).SetSize(0)
    ensures ia.refreshed == old(ia.refreshed) + [ia.buffer] && ia.resumeCount == old(ia.resumeCount) + 1
    ensures ia.history == old(ia.history) && ia.historyIndex == old(ia.historyIndex)
  {
    var buf := ia.buffer;
    buf := buf.SetSize(0);
    ia.Refresh(buf);
    ia.Resume();
  }

  /** `undo` leaves an empty line, whatever the line held. */
  lemma UndoEmpties(buf: LineBuffer)
    ensures buf.SetSize(0) == LineBuffer([], 0)
  {
  }
}
