/**
 * The text utilities of `io.termd.core.util.Helper`: conversion between strings
 * and code points, line splitting, escaping, longest common prefix, the layout
 * of a block of completions and the screen position of a code point.
 */
module Helper {
  import opened Types

  const NL: CodeUnit := 10
  const CR: CodeUnit := 13
  const SPACE: CodeUnit := 32
  const BACKSLASH: CodeUnit := 92
  const DIGIT_ZERO: CodeUnit := 48

  // ---------------------------------------------------------------------------
  // UTF-16 and code points
  // ---------------------------------------------------------------------------

  predicate IsHighSurrogate(u: int) { 0xD800 <= u <= 0xDBFF }

  predicate IsLowSurrogate(u: int) { 0xDC00 <= u <= 0xDFFF }

  /** A Unicode scalar value: a code point that is not a surrogate. */
  predicate IsScalarValue(cp: int) {
    0 <= cp <= 0x10_FFFF && !IsHighSurrogate(cp) && !IsLowSurrogate(cp)
  }

  function Supplementary(hi: int, lo: int): (cp: int)
    requires IsHighSurrogate(hi) && IsLowSurrogate(lo)
    ensures 0x1_0000 <= cp <= 0x10_FFFF
  {
    0x1_0000 + (hi - 0xD800) * 0x400 + (lo - 0xDC00)
  }

  /** `String.codePointAt`: a surrogate pair reads as one supplementary code point. */
  function CodePointAt(s: JString, i: nat): (cp: int)
    requires i < |s|
    ensures cp >= 0x1_0000 <==> i + 1 < |s| && IsHighSurrogate(s[i]) && IsLowSurrogate(s[i + 1])
    ensures cp < 0x1_0000 ==> cp == s[i]
  {
    if i + 1 < |s| && IsHighSurrogate(s[i]) && IsLowSurrogate(s[i + 1]) then
      Supplementary(s[i], s[i + 1])
    else
      s[i]
  }

  /** `Character.charCount`. */
  function CharCount(cp: int): nat {
    if cp >= 0x1_0000 then 2 else 1
  }

  /** The code points of a string, read as `toCodePoints` reads them. */
  function CodePointsOf(s: JString): seq<int>
    decreases |s|
  {
    if |s| == 0 then []
    else
      var cp := CodePointAt(s, 0);
      [cp] + CodePointsOf(s[CharCount(cp)..])
  }

  /** The UTF-16 encoding of one code point, as `new String(int[], ...)` writes it. */
  function Utf16Of(cp: int): (u: JString)
    requires 0 <= cp <= 0x10_FFFF
    ensures cp < 0x1_0000 ==> u == [cp]
    ensures cp >= 0x1_0000 ==> |u| == 2 && IsHighSurrogate(u[0]) && IsLowSurrogate(u[1])
  {
    if cp < 0x1_0000 then [cp]
    else [0xD800 + (cp - 0x1_0000) / 0x400, 0xDC00 + (cp - 0x1_0000) % 0x400]
  }

  /**
   * `fromCodePoints`: the string of the given code points, or None where the
   * Java constructor throws IllegalArgumentException (a value outside 0..0x10FFFF).
   */
  function FromCodePoints(cps: seq<int>): (r: Option<JString>)
    ensures r.Some? <==> forall i :: 0 <= i < |cps| ==> 0 <= cps[i] <= 0x10_FFFF
    ensures r.Some? ==> |cps| <= |r.value| <= 2 * |cps|
  {
    if |cps| == 0 then Some([])
    else if !(0 <= cps[0] <= 0x10_FFFF) then None
    else
      match FromCodePoints(cps[1..])
      case None => None
      case Some(rest) => Some(Utf16Of(cps[0]) + rest)
  }

  /** `convert`: copies a list of integers into an array, element by element. */
  method Convert(ints: seq<int>) returns (result: seq<int>)
    ensures |result| == |ints|
    ensures forall i :: 0 <= i < |ints| ==> result[i] == ints[i]
  {
    result := [];
    var index := 0;
    while index < |ints|
      invariant 0 <= index <= |ints|
      invariant |result| == index
      invariant forall i :: 0 <= i < index ==> result[i] == ints[i]
    {
      result := result + [ints[index]];
      index := index + 1;
    }
  }

  /** `toCodePoints`: walks the string, advancing by `charCount` of each code point read. */
  method ToCodePoints(s: JString) returns (cps: seq<int>)
    ensures cps == CodePointsOf(s)
  {
    var codePoints: seq<int> := [];
    var offset := 0;
    while offset < |s|
      invariant 0 <= offset <= |s|
      invariant codePoints + CodePointsOf(s[offset..]) == CodePointsOf(s)
    {
      var cp := CodePointAt(s, offset);
      assert CodePointAt(s[offset..], 0) == cp;
      assert s[offset..][CharCount(cp)..] == s[offset + CharCount(cp)..];
      codePoints := codePoints + [cp];
      offset := offset + CharCount(cp);
    }
    cps := Convert(codePoints);
  }

  lemma Utf16OfSupplementary(hi: int, lo: int)
    requires IsHighSurrogate(hi) && IsLowSurrogate(lo)
    ensures Utf16Of(Supplementary(hi, lo)) == [hi, lo]
  {
    var d := (hi - 0xD800) * 0x400 + (lo - 0xDC00);
    assert 0 <= lo - 0xDC00 < 0x400;
    assert d / 0x400 == hi - 0xD800;
    assert d % 0x400 == lo - 0xDC00;
  }

  /** Every string survives `fromCodePoints(toCodePoints(s))`, lone surrogates included. */
  lemma {:induction false} StringRoundTrip(s: JString)
    ensures FromCodePoints(CodePointsOf(s)) == Some(s)
    decreases |s|
  {
    if |s| > 0 {
      var cp := CodePointAt(s, 0);
      var rest := s[CharCount(cp)..];
      StringRoundTrip(rest);
      assert CodePointsOf(s)[1..] == CodePointsOf(rest);
      if cp >= 0x1_0000 {
        Utf16OfSupplementary(s[0], s[1]);
        assert s == [s[0], s[1]] + rest;
      } else {
        assert s == [s[0]] + rest;
      }
    }
  }

  /** Code points that are Unicode scalar values survive `toCodePoints(fromCodePoints(cps))`. */
  lemma {:induction false} CodePointRoundTrip(cps: seq<int>)
    requires forall i :: 0 <= i < |cps| ==> IsScalarValue(cps[i])
    ensures FromCodePoints(cps).Some? && CodePointsOf(FromCodePoints(cps).value) == cps
  {
    if |cps| > 0 {
      CodePointRoundTrip(cps[1..]);
      var rest := FromCodePoints(cps[1..]).value;
      var u := Utf16Of(cps[0]);
      var s := u + rest;
      assert FromCodePoints(cps).value == s;
      if cps[0] >= 0x1_0000 {
        var q := (cps[0] - 0x1_0000) / 0x400;
        var m := (cps[0] - 0x1_0000) % 0x400;
        assert cps[0] - 0x1_0000 == q * 0x400 + m;
        assert CodePointAt(s, 0) == cps[0];
        assert s[2..] == rest;
      } else {
        assert CodePointAt(s, 0) == cps[0];
        assert s[1..] == rest;
      }
    }
  }

  // ---------------------------------------------------------------------------
  // split
  // ---------------------------------------------------------------------------

  /** `String.indexOf(ch, from)`: the first index at or after `from` holding `c`, or -1. */
  function IndexOf(s: JString, c: CodeUnit, from: nat): (r: int)
    ensures r == -1 || (from <= r < |s| && s[r] == c)
    ensures r == -1 ==> forall i :: from <= i < |s| ==> s[i] != c
    ensures r != -1 ==> forall i :: from <= i < r ==> s[i] != c
    decreases |s| - from
  {
    if from >= |s| then -1
    else if s[from] == c then from
    else IndexOf(s, c, from + 1)
  }

  /** The pieces of `s[from..]` between line feeds, as `split` collects them. */
  function LinesFrom(s: JString, from: nat): (r: seq<JString>)
    requires from <= |s|
    ensures |r| >= 1
    decreases |s| - from
  {
    var pos := IndexOf(s, NL, from);
    if pos == -1 then [s[from..]]
    else [s[from..pos]] + LinesFrom(s, pos + 1)
  }

  /**
   * `split(s, c)`: the argument `c` is ignored and the string is always cut at
   * line feeds; the last piece is what follows the last line feed.
   */
  method Split(s: JString, c: CodeUnit) returns (ret: seq<JString>)
    ensures ret == LinesFrom(s, 0)
  {
    ret := [];
    var prev := 0;
    while true
      invariant 0 <= prev <= |s|
      invariant ret + LinesFrom(s, prev) == LinesFrom(s, 0)
      decreases |s| - prev
    {
      var pos := IndexOf(s, NL, prev);
      if pos == -1 {
        break;
      }
      assert LinesFrom(s, prev) == [s[prev..pos]] + LinesFrom(s, pos + 1);
      ret := ret + [s[prev..pos]];
      prev := pos + 1;
    }
    ret := ret + [s[prev..]];
  }

  function Join(pieces: seq<JString>, sep: CodeUnit): JString {
    if |pieces| == 0 then []
    else if |pieces| == 1 then pieces[0]
    else pieces[0] + [sep] + Join(pieces[1..], sep)
  }

  function Count(s: JString, c: CodeUnit): nat {
    if |s| == 0 then 0 else (if s[0] == c then 1 else 0) + Count(s[1..], c)
  }

  lemma CountAppend(a: JString, b: JString, c: CodeUnit)
    ensures Count(a + b, c) == Count(a, c) + Count(b, c)
  {
    if |a| > 0 {
      assert (a + b)[1..] == a[1..] + b;
      CountAppend(a[1..], b, c);
    } else {
      assert a + b == b;
    }
  }

  lemma CountAbsent(a: JString, c: CodeUnit)
    requires forall i :: 0 <= i < |a| ==> a[i] != c
    ensures Count(a, c) == 0
  {
  }

  /** Joining the pieces of `split` with line feeds gives the string back. */
  lemma {:induction false} SplitJoin(s: JString, from: nat)
    requires from <= |s|
    ensures Join(LinesFrom(s, from), NL) == s[from..]
    decreases |s| - from
  {
    var pos := IndexOf(s, NL, from);
    if pos != -1 {
      SplitJoin(s, pos + 1);
      var rest := LinesFrom(s, pos + 1);
      assert LinesFrom(s, from)[1..] == rest;
      assert s[from..] == s[from..pos] + [NL] + s[pos + 1..];
    }
  }

  /** `split` yields exactly one piece more than there are line feeds, and no piece holds one. */
  lemma {:induction false} SplitCount(s: JString, from: nat)
    requires from <= |s|
    ensures |LinesFrom(s, from)| == Count(s[from..], NL) + 1
    ensures forall k :: 0 <= k < |LinesFrom(s, from)| ==> NL !in LinesFrom(s, from)[k]
    decreases |s| - from
  {
    var pos := IndexOf(s, NL, from);
    if pos == -1 {
      CountAbsent(s[from..], NL);
    } else {
      SplitCount(s, pos + 1);
      CountAtNewline(s, from, pos);
      var r, rest := LinesFrom(s, from), LinesFrom(s, pos + 1);
      assert r == [s[from..pos]] + rest;
      forall k | 0 <= k < |r| ensures NL !in r[k] {
        if k > 0 {
          assert r[k] == rest[k - 1];
        }
      }
    }
  }

  /** The line feeds from `from` on: none before `pos`, the one at `pos`, and those after it. */
  lemma CountAtNewline(s: JString, from: nat, pos: nat)
    requires from <= pos < |s| && s[pos] == NL
    requires forall i :: from <= i < pos ==> s[i] != NL
    ensures Count(s[from..], NL) == Count(s[pos + 1..], NL) + 1
  {
    assert s[from..] == s[from..pos] + ([NL] + s[pos + 1..]);
    CountAppend(s[from..pos], [NL] + s[pos + 1..], NL);
    CountAbsent(s[from..pos], NL);
    assert ([NL] + s[pos + 1..])[1..] == s[pos + 1..];
  }


  // ---------------------------------------------------------------------------
  // escape
  // ---------------------------------------------------------------------------

  /** `Integer.toOctalString` for a non-negative value. */
  function OctalString(n: nat): (r: JString)
    ensures 1 <= |r|
  {
    if n < 8 then [DIGIT_ZERO + n] else OctalString(n / 8) + [DIGIT_ZERO + n % 8]
  }

  function Zeros(n: nat): (r: JString)
    ensures |r| == n
  {
    if n == 0 then [] else [DIGIT_ZERO] + Zeros(n - 1)
  }

  /** What `escape` writes for one char. */
  function EscapeUnit(c: CodeUnit): JString {
    if c == 0 then [BACKSLASH, DIGIT_ZERO]
    else if c < 32 then
      var octal := OctalString(c);
      [BACKSLASH] + Zeros(if |octal| < 3 then 3 - |octal| else 0) + octal
    else if c == BACKSLASH then [BACKSLASH, BACKSLASH]
    else [c]
  }

  function EscapeOf(s: JString): JString {
    if |s| == 0 then [] else EscapeOf(s[..|s| - 1]) + EscapeUnit(s[|s| - 1])
  }

  lemma OctalStringShort(n: nat)
    requires n < 64
    ensures |OctalString(n)| <= 2
  {
  }

  /** One turn of `escape`'s loop: appends the escape of `c` to the builder `sb`. */
  method AppendEscaped(sb: JString, c: CodeUnit) returns (out: JString)
    ensures out == sb + EscapeUnit(c)
  {
    if c == 0 {
      out := sb + [BACKSLASH, DIGIT_ZERO];
    } else if c < 32 {
      out := sb + [BACKSLASH];
      var octal := OctalString(c);
      OctalStringShort(c);
      var j := |octal|;
      while j < 3
        invariant |octal| <= j <= 3
        invariant out == sb + [BACKSLASH] + Zeros(j - |octal|)
      {
        assert Zeros(j - |octal| + 1) == Zeros(j - |octal|) + [DIGIT_ZERO];
        out := out + [DIGIT_ZERO];
        j := j + 1;
      }
      out := out + octal;
    } else if c == BACKSLASH {
      out := sb + [BACKSLASH, BACKSLASH];
    } else {
      out := sb + [c];
    }
  }

  /** `escape`: appends the escape of each char to a builder. */
  method Escape(s: JString) returns (r: JString)
    ensures r == EscapeOf(s)
  {
    var sb: JString := [];
    for i := 0 to |s|
      invariant sb == EscapeOf(s[..i])
    {
      assert s[..i + 1][..i] == s[..i];
      sb := AppendEscaped(sb, s[i]);
    }
    assert s[..|s|] == s;
    r := sb;
  }

  lemma OctalEscapeDigits(c: CodeUnit)
    requires 0 < c < 32
    ensures EscapeUnit(c) == [BACKSLASH, DIGIT_ZERO, DIGIT_ZERO + c / 8, DIGIT_ZERO + c % 8]
  {
    if c < 8 {
      assert OctalString(c) == [DIGIT_ZERO + c];
      assert Zeros(2) == [DIGIT_ZERO, DIGIT_ZERO];
    } else {
      assert OctalString(c) == [DIGIT_ZERO + c / 8, DIGIT_ZERO + c % 8];
      assert Zeros(1) == [DIGIT_ZERO];
    }
  }

  predicate NoControlUnits(s: JString) {
    forall i :: 0 <= i < |s| ==> s[i] >= 32
  }

  /** The output of `escape` holds no char below 32. DEL and the C1 controls pass through unchanged. */
  lemma {:induction false} EscapeHasNoControls(s: JString)
    ensures NoControlUnits(EscapeOf(s))
  {
    if |s| > 0 {
      EscapeHasNoControls(s[..|s| - 1]);
      var c := s[|s| - 1];
      if 0 < c < 32 {
        OctalEscapeDigits(c);
      }
    }
  }

  /** `escape` leaves a string with no control char and no backslash unchanged. */
  lemma {:induction false} EscapeIdentity(s: JString)
    requires forall i :: 0 <= i < |s| ==> s[i] >= 32 && s[i] != BACKSLASH
    ensures EscapeOf(s) == s
  {
    if |s| > 0 {
      EscapeIdentity(s[..|s| - 1]);
      assert s == s[..|s| - 1] + [s[|s| - 1]];
    }
  }

  /**
   * Reads back an escaped string: `\\` is a backslash, `\` with three octal
   * digits is that char. None for text `escape` cannot produce from a NUL-free string.
   */
  function Unescape(t: JString): Option<JString>
    decreases |t|
  {
    if |t| == 0 then Some([])
    else if t[0] != BACKSLASH then
      match Unescape(t[1..])
      case None => None
      case Some(rest) => Some([t[0]] + rest)
    else if |t| >= 2 && t[1] == BACKSLASH then
      match Unescape(t[2..])
      case None => None
      case Some(rest) => Some([BACKSLASH] + rest)
    else if |t| >= 4 && t[1] == DIGIT_ZERO && DIGIT_ZERO <= t[2] < DIGIT_ZERO + 8
         && DIGIT_ZERO <= t[3] < DIGIT_ZERO + 8 then
      match Unescape(t[4..])
      case None => None
      case Some(rest) => Some([(t[2] - DIGIT_ZERO) * 8 + (t[3] - DIGIT_ZERO)] + rest)
    else None
  }

  function EscapeFrom(s: JString): JString {
    if |s| == 0 then [] else EscapeUnit(s[0]) + EscapeFrom(s[1..])
  }

  lemma {:induction false} EscapeFromAppend(a: JString, c: CodeUnit)
    ensures EscapeFrom(a + [c]) == EscapeFrom(a) + EscapeUnit(c)
  {
    if |a| > 0 {
      assert (a + [c])[1..] == a[1..] + [c];
      EscapeFromAppend(a[1..], c);
    }
  }

  lemma {:induction false} EscapeOfFront(s: JString)
    ensures EscapeOf(s) == EscapeFrom(s)
  {
    if |s| > 0 {
      var init, c := s[..|s| - 1], s[|s| - 1];
      EscapeOfFront(init);
      EscapeFromAppend(init, c);
      assert init + [c] == s;
      assert EscapeOf(s) == EscapeOf(init) + EscapeUnit(c);
    }
  }

  /** For a string with no NUL, `escape` loses nothing: unescaping gives the string back. */
  lemma {:induction false} EscapeRoundTrip(s: JString)
    requires forall i :: 0 <= i < |s| ==> s[i] != 0
    ensures Unescape(EscapeOf(s)) == Some(s)
  {
    EscapeOfFront(s);
    EscapeFromRoundTrip(s);
  }

  lemma {:induction false} EscapeFromRoundTrip(s: JString)
    requires forall i :: 0 <= i < |s| ==> s[i] != 0
    ensures Unescape(EscapeFrom(s)) == Some(s)
  {
    if |s| > 0 {
      EscapeFromRoundTrip(s[1..]);
      UnescapeUnit(s[0], EscapeFrom(s[1..]), s[1..]);
      assert s == [s[0]] + s[1..];
    }
  }

  /** Unescaping reads the escape of one char that is not NUL back as that char. */
  lemma UnescapeUnit(c: CodeUnit, rest: JString, r: JString)
    requires c != 0 && Unescape(rest) == Some(r)
    ensures Unescape(EscapeUnit(c) + rest) == Some([c] + r)
  {
    var t := EscapeUnit(c) + rest;
    if c < 32 {
      OctalEscapeDigits(c);
      assert t[4..] == rest;
    } else if c == BACKSLASH {
      assert t[2..] == rest;
    } else {
      assert t[1..] == rest;
    }
  }


  // ---------------------------------------------------------------------------
  // min, max, findLongestCommonPrefix
  // ---------------------------------------------------------------------------

  /** `min`: the length of the shortest entry. */
  method Min(entries: seq<seq<int>>) returns (minLen: int)
    requires |entries| > 0
    ensures exists i :: 0 <= i < |entries| && minLen == |entries[i]|
    ensures forall i :: 0 <= i < |entries| ==> minLen <= |entries[i]|
  {
    minLen := |entries[0]|;
    for i := 1 to |entries|
      invariant exists k :: 0 <= k < i && minLen == |entries[k]|
      invariant forall k :: 0 <= k < i ==> minLen <= |entries[k]|
    {
      var len := |entries[i]|;
      if minLen > len {
        minLen := len;
      }
    }
  }

  /** `max`: the length of the longest entry. */
  method Max(entries: seq<seq<int>>) returns (maxLen: int)
    requires |entries| > 0
    ensures maxLen == MaxLength(entries)
  {
    maxLen := |entries[0]|;
    for i := 1 to |entries|
      invariant maxLen == MaxLength(entries[..i])
    {
      assert entries[..i + 1][..i] == entries[..i];
      var len := |entries[i]|;
      if maxLen < len {
        maxLen := len;
      }
    }
    assert entries[..|entries|] == entries;
  }

  function MaxLength(entries: seq<seq<int>>): nat
    requires |entries| > 0
  {
    if |entries| == 1 then |entries[0]|
    else
      var m := MaxLength(entries[..|entries| - 1]);
      var last := |entries[|entries| - 1]|;
      if m < last then last else m
  }

  /** `MaxLength` is the length of some entry and no entry is longer. */
  lemma {:induction false} MaxLengthIsMax(entries: seq<seq<int>>)
    requires |entries| > 0
    ensures exists i :: 0 <= i < |entries| && MaxLength(entries) == |entries[i]|
    ensures forall i :: 0 <= i < |entries| ==> |entries[i]| <= MaxLength(entries)
  {
    if |entries| > 1 {
      var init := entries[..|entries| - 1];
      MaxLengthIsMax(init);
      var i :| 0 <= i < |init| && MaxLength(init) == |init[i]|;
      assert init[i] == entries[i];
      if MaxLength(init) < |entries[|entries| - 1]| {
        assert MaxLength(entries) == |entries[|entries| - 1]|;
      } else {
        assert MaxLength(entries) == |entries[i]|;
      }
      forall j | 0 <= j < |entries| - 1 ensures |entries[j]| <= MaxLength(entries) {
        assert init[j] == entries[j];
      }
    } else {
      assert MaxLength(entries) == |entries[0]|;
    }
  }

  /** `findLongestCommonPrefix`. */
  method FindLongestCommonPrefix(entries: seq<seq<int>>) returns (r: seq<int>)
    ensures entries == [] ==> r == []
    ensures forall i :: 0 <= i < |entries| ==> r <= entries[i]
    ensures entries != [] ==>
      exists i :: 0 <= i < |entries| && (|entries[i]| == |r| || |entries[0]| == |r| || entries[i][|r|] != entries[0][|r|])
  {
    if |entries| == 0 {
      return [];
    }
    var minLen := Min(entries);
    var len := 0;
    while len < minLen
      invariant 0 <= len <= minLen
      invariant forall i, k :: 0 <= i < |entries| && 0 <= k < len ==> entries[i][k] == entries[0][k]
      decreases minLen - len
    {
      var j := 1;
      while j < |entries|
        invariant 1 <= j <= |entries|
        invariant forall i :: 0 <= i < j ==> entries[i][len] == entries[0][len]
      {
        if entries[j][len] != entries[j - 1][len] {
          r := entries[0][..len];
          assert forall i :: 0 <= i < |entries| ==> r <= entries[i];
          return;
        }
        j := j + 1;
      }
      len := len + 1;
    }
    r := entries[0][..len];
  }

  // ---------------------------------------------------------------------------
  // computeBlock
  // ---------------------------------------------------------------------------

  function Spaces(n: nat): (r: seq<int>)
    ensures |r| == n && forall i :: 0 <= i < n ==> r[i] == SPACE
  {
    if n == 0 then [] else Spaces(n - 1) + [SPACE]
  }

  /**
   * What follows the `k`-th completion (counting from 1) in a block laid out
   * `row` to a line: a line feed after every `row`-th one, a space otherwise.
   */
  function Separator(k: nat, row: int): int {
    if row >= 1 && k % row != 0 then SPACE else NL
  }

  /** One cell of the block: the completion padded with spaces to `width`, then its separator. */
  function Cell(c: seq<int>, width: nat, sep: int): seq<int> {
    c + Spaces(if |c| < width then width - |c| else 0) + [sep]
  }

  function Cells(cs: seq<seq<int>>, width: nat, row: int): seq<int> {
    if |cs| == 0 then []
    else Cells(cs[..|cs| - 1], width, row) + Cell(cs[|cs| - 1], width, Separator(|cs|, row))
  }

  /** The block of completions laid out for a screen of `size.x` columns. */
  function BlockOf(size: Vector, cs: seq<seq<int>>): seq<int> {
    if |cs| == 0 then []
    else
      var width := MaxLength(cs);
      Cells(cs, width, JavaDiv(size.x, width + 1)) + [NL]
  }

  /** Appends a completion to the builder, then spaces up to `max` code points. */
  method AppendPadded(sb: seq<int>, completion: seq<int>, max: int) returns (out: seq<int>)
    requires 0 <= max
    ensures out == sb + completion + Spaces(if |completion| < max then max - |completion| else 0)
  {
    out := sb + completion;
    var i := |completion|;
    while i < max
      invariant |completion| <= i <= max || (i == |completion| && i >= max)
      invariant out == sb + completion + Spaces(i - |completion|)
    {
      out := out + [SPACE];
      i := i + 1;
    }
  }

  /**
   * What `computeBlock` returns: the builder's code points `BlockOf` go
   * through `appendCodePoint` and `toString`, then back through
   * `toCodePoints`. None where `appendCodePoint` throws (a value outside
   * 0..0x10FFFF); a high surrogate followed by a low one is read back as one
   * supplementary code point.
   */
  function ComputedBlock(size: Vector, cs: seq<seq<int>>): Option<seq<int>> {
    match FromCodePoints(BlockOf(size, cs))
    case None => None
    case Some(text) => Some(CodePointsOf(text))
  }

  /**
   * `computeBlock`: the padded completions and their separators are built
   * in a `StringBuilder`, whose text is then read back as code points.
   */
  method ComputeBlock(size: Vector, completions: seq<seq<int>>) returns (r: Option<seq<int>>)
    ensures r == ComputedBlock(size, completions)
  {
    if |completions| == 0 {
      return Some([]);
    }
    var max := Max(completions);
    var row := JavaDiv(size.x, max + 1);
    var count := 0;
    var sb: seq<int> := [];
    for k := 0 to |completions|
      invariant sb == Cells(completions[..k], max, row)
      invariant count == if row >= 1 then k % row else 0
    {
      ghost var before := sb;
      sb := AppendPadded(sb, completions[k], max);
      SeparatorStep(k, row, count);
      count := count + 1;
      if count < row {
        sb := sb + [SPACE];
      } else {
        sb := sb + [NL];
        count := 0;
      }
      CellsSnoc(completions, max, row, k, before, sb);
    }
    assert completions[..|completions|] == completions;
    var text := FromCodePoints(sb + [NL]);
    if text.None? {
      return None;
    }
    var cps := ToCodePoints(text.value);
    r := Some(cps);
  }

  predicate AllScalar(s: seq<int>) {
    forall i :: 0 <= i < |s| ==> IsScalarValue(s[i])
  }

  lemma AllScalarAppend(a: seq<int>, b: seq<int>)
    requires AllScalar(a) && AllScalar(b)
    ensures AllScalar(a + b)
  {
    forall i | 0 <= i < |a + b|
      ensures IsScalarValue((a + b)[i])
    {
      if i < |a| {
        assert (a + b)[i] == a[i];
      } else {
        assert (a + b)[i] == b[i - |a|];
      }
    }
  }

  /** Cells of scalar completions hold only scalar values: spaces and line feeds are scalars. */
  lemma {:induction false} CellsScalar(cs: seq<seq<int>>, width: nat, row: int)
    requires forall k :: 0 <= k < |cs| ==> AllScalar(cs[k])
    ensures AllScalar(Cells(cs, width, row))
  {
    if |cs| > 0 {
      var c := cs[|cs| - 1];
      CellsScalar(cs[..|cs| - 1], width, row);
      var pad := Spaces(if |c| < width then width - |c| else 0);
      var sep := Separator(|cs|, row);
      AllScalarAppend(c, pad);
      AllScalarAppend(c + pad, [sep]);
      AllScalarAppend(Cells(cs[..|cs| - 1], width, row), c + pad + [sep]);
    }
  }

  /**
   * For completions of Unicode scalar values the trip through the builder
   * changes nothing: `computeBlock` returns the laid-out block itself.
   */
  lemma ComputedBlockScalar(size: Vector, cs: seq<seq<int>>)
    requires forall k :: 0 <= k < |cs| ==> AllScalar(cs[k])
    ensures ComputedBlock(size, cs) == Some(BlockOf(size, cs))
  {
    if |cs| > 0 {
      var width := MaxLength(cs);
      CellsScalar(cs, width, JavaDiv(size.x, width + 1));
      AllScalarAppend(Cells(cs, width, JavaDiv(size.x, width + 1)), [NL]);
    }
    CodePointRoundTrip(BlockOf(size, cs));
  }

  /** A completion holding a value outside 0..0x10FFFF makes `appendCodePoint` throw. */
  lemma ComputedBlockRejects(size: Vector, cs: seq<seq<int>>, k: nat, j: nat)
    requires k < |cs| && j < |cs[k]| && !(0 <= cs[k][j] <= 0x10_FFFF)
    ensures ComputedBlock(size, cs) == None
  {
    var lo := k * (MaxLength(cs) + 1);
    BlockCell(size, cs, k, lo);
    var block := BlockOf(size, cs);
    assert block[lo + j] == block[lo..lo + |cs[k]|][j] == cs[k][j];
  }

  /** Code points below 0x10000 are copied into the string unit for unit. */
  lemma {:induction false} FromCodePointsUnits(cps: seq<int>)
    requires forall i :: 0 <= i < |cps| ==> 0 <= cps[i] < 0x1_0000
    ensures FromCodePoints(cps).Some? && FromCodePoints(cps).value == cps
  {
    if |cps| > 0 {
      FromCodePointsUnits(cps[1..]);
      assert [cps[0]] + cps[1..] == cps;
    }
  }

  /** The cells of one two-unit completion at 80 columns: the completion, then its space separator and the final line feed. */
  lemma SurrogateBlock()
    ensures BlockOf(Vector(80, 24), [[0xD800, 0xDC00]]) == [0xD800, 0xDC00, 32, 10]
  {
    var cs: seq<seq<int>> := [[0xD800, 0xDC00]];
    assert MaxLength(cs) == 2;
    assert JavaDiv(80, 3) == 26;
    assert Separator(1, 26) == SPACE;
    assert Spaces(0) == [];
    assert cs[..0] == [];
    assert Cells(cs, 2, 26) == Cells([], 2, 26) + Cell(cs[0], 2, SPACE);
  }

  /** A high surrogate followed by a low one reads back as one supplementary code point. */
  lemma SurrogateReadBack()
    ensures CodePointsOf([0xD800, 0xDC00, 32, 10]) == [0x1_0000, 32, 10]
  {
    var text: JString := [0xD800, 0xDC00, 32, 10];
    var t2: JString := [32, 10];
    var t3: JString := [10];
    assert CodePointAt(text, 0) == 0x1_0000;
    assert text[2..] == t2;
    assert CodePointAt(t2, 0) == 32 && t2[1..] == t3;
    assert CodePointAt(t3, 0) == 10 && t3[1..] == [];
    assert CodePointsOf(t3) == [10];
    assert CodePointsOf(t2) == [32, 10];
  }

  /** A surrogate pair split across two completion code points is read back as one code point. */
  lemma ComputedBlockRepairs()
    ensures ComputedBlock(Vector(80, 24), [[0xD800, 0xDC00]]) == Some([0x1_0000, 32, 10])
  {
    var block: seq<int> := [0xD800, 0xDC00, 32, 10];
    SurrogateBlock();
    FromCodePointsUnits(block);
    SurrogateReadBack();
  }



  /** The separator after the `k + 1`-th completion, from the counter of `computeBlock`. */
  lemma SeparatorStep(k: nat, row: int, count: int)
    requires count == if row >= 1 then k % row else 0
    ensures count + 1 < row ==> Separator(k + 1, row) == SPACE && (if row >= 1 then (k + 1) % row else 0) == count + 1
    ensures count + 1 >= row ==> Separator(k + 1, row) == NL && (if row >= 1 then (k + 1) % row else 0) == 0
  {
    if row >= 1 {
      ModStep(k, row);
    }
  }

  /** The builder after one more padded completion and its separator. */
  lemma CellsSnoc(cs: seq<seq<int>>, width: nat, row: int, k: nat, before: seq<int>, after: seq<int>)
    requires k < |cs| && before == Cells(cs[..k], width, row)
    requires after == before + cs[k] + Spaces(if |cs[k]| < width then width - |cs[k]| else 0) + [Separator(k + 1, row)]
    ensures after == Cells(cs[..k + 1], width, row)
  {
    assert cs[..k + 1][..k] == cs[..k];
    assert cs[..k + 1][k] == cs[k];
  }

  lemma MulAtLeast(d: int, row: int)
    requires d >= 1 && row > 0
    ensures d * row >= row
  {
  }

  lemma ModUnique(k: int, row: int, q: int, m: int)
    requires row > 0 && 0 <= m < row && k == q * row + m
    ensures k % row == m
  {
    var q', m' := k / row, k % row;
    assert k == q' * row + m';
    assert (q - q') * row == m' - m;
    if q > q' {
      MulAtLeast(q - q', row);
    } else if q < q' {
      MulAtLeast(q' - q, row);
    }
  }

  lemma ModStep(k: nat, row: int)
    requires row >= 1
    ensures (k + 1) % row == if k % row + 1 < row then k % row + 1 else 0
  {
    var q, m := k / row, k % row;
    assert k == q * row + m;
    if m + 1 < row {
      ModUnique(k + 1, row, q, m + 1);
    } else {
      assert (q + 1) * row == q * row + row;
      ModUnique(k + 1, row, q + 1, 0);
    }
  }

  lemma MulStep(k: nat, w: nat)
    ensures (k + 1) * w == k * w + w
  {
  }

  lemma {:induction false} CellsLength(cs: seq<seq<int>>, width: nat, row: int)
    requires forall i :: 0 <= i < |cs| ==> |cs[i]| <= width
    ensures |Cells(cs, width, row)| == |cs| * (width + 1)
  {
    if |cs| > 0 {
      CellsLength(cs[..|cs| - 1], width, row);
      MulStep(|cs| - 1, width + 1);
    }
  }

  /** The cell of the `k`-th completion starts at `lo == k * (width + 1)` in `Cells`. */
  lemma {:induction false} CellsAt(cs: seq<seq<int>>, width: nat, row: int, k: nat, lo: nat)
    requires forall i :: 0 <= i < |cs| ==> |cs[i]| <= width
    requires k < |cs| && lo == k * (width + 1)
    ensures lo + width + 1 <= |Cells(cs, width, row)|
    ensures Cells(cs, width, row)[lo..lo + width + 1] == Cell(cs[k], width, Separator(k + 1, row))
  {
    var w := width + 1;
    var init := cs[..|cs| - 1];
    CellsLength(init, width, row);
    var prefix := Cells(init, width, row);
    var last := Cell(cs[|cs| - 1], width, Separator(|cs|, row));
    assert Cells(cs, width, row) == prefix + last;
    if k == |cs| - 1 {
      assert (prefix + last)[lo..lo + w] == last;
    } else {
      CellsAt(init, width, row, k, lo);
      assert init[k] == cs[k];
      assert (prefix + last)[lo..lo + w] == prefix[lo..lo + w];
    }
  }

  lemma CompletionsFit(cs: seq<seq<int>>)
    requires |cs| > 0
    ensures forall i :: 0 <= i < |cs| ==> |cs[i]| <= MaxLength(cs)
  {
    MaxLengthIsMax(cs);
  }

  /** The block has one cell of `max + 1` code points per completion and ends with a line feed. */
  lemma BlockLength(size: Vector, cs: seq<seq<int>>)
    requires |cs| > 0
    ensures var block := BlockOf(size, cs);
      |block| == |cs| * (MaxLength(cs) + 1) + 1 && block[|block| - 1] == NL
  {
    CompletionsFit(cs);
    CellsLength(cs, MaxLength(cs), JavaDiv(size.x, MaxLength(cs) + 1));
  }

  /**
   * The cell of the `k`-th completion, at `lo == k * (max + 1)`, is the
   * completion padded with spaces to the longest length, then a line feed
   * after every `row`-th completion and a space otherwise.
   */
  lemma BlockCell(size: Vector, cs: seq<seq<int>>, k: nat, lo: nat)
    requires k < |cs| && lo == k * (MaxLength(cs) + 1)
    ensures var max := MaxLength(cs);
      var block := BlockOf(size, cs);
      && |cs[k]| <= max
      && lo + max + 1 < |block|
      && block[lo..lo + |cs[k]|] == cs[k]
      && (forall j :: lo + |cs[k]| <= j < lo + max ==> block[j] == SPACE)
      && block[lo + max] == Separator(k + 1, JavaDiv(size.x, max + 1))
  {
    var max := MaxLength(cs);
    var row := JavaDiv(size.x, max + 1);
    CompletionsFit(cs);
    CellsAt(cs, max, row, k, lo);
    var cells := Cells(cs, max, row);
    var block := BlockOf(size, cs);
    assert block == cells + [NL];
    assert block[lo..lo + max + 1] == cells[lo..lo + max + 1];
    CellWindow(block, lo, cs[k], max, Separator(k + 1, row));
  }

  /** Where the parts of a cell sit in a sequence that holds it at `lo`. */
  lemma CellWindow(block: seq<int>, lo: nat, c: seq<int>, width: nat, sep: int)
    requires |c| <= width && lo + width + 1 <= |block| && block[lo..lo + width + 1] == Cell(c, width, sep)
    ensures block[lo..lo + |c|] == c
    ensures forall j :: lo + |c| <= j < lo + width ==> block[j] == SPACE
    ensures block[lo + width] == sep
  {
    var cell := Cell(c, width, sep);
    assert block[lo..lo + |c|] == block[lo..lo + width + 1][..|c|];
    assert cell[..|c|] == c;
    forall j | lo + |c| <= j < lo + width
      ensures block[j] == SPACE
    {
      assert block[j] == cell[j - lo];
      assert cell[j - lo] == Spaces(width - |c|)[j - lo - |c|];
    }
    assert block[lo + width] == cell[width];
  }


  // ---------------------------------------------------------------------------
  // computePosition
  // ---------------------------------------------------------------------------

  /** A `Wcwidth.of` value: -1 for a control char, else the number of columns. */
  type Width = w: int | -1 <= w <= 2

  datatype PositionError = IndexOutOfBounds | UnsupportedOperation

  /** One step of `computePosition`: the position after a code point of width `w`. */
  function Advance(p: Vector, cp: int, w: Width, width: int): (r: Result<Vector, PositionError>)
    ensures r.Err? <==> w != -1 && p.x + w > width && w > width
  {
    if w == -1 then
      if cp == CR then Ok(Vector(0, p.y))
      else if cp == NL then Ok(Vector(0, p.y + 1))
      else Ok(p)
    else if p.x + w > width && w > width then Err(UnsupportedOperation)
    else
      var q := if p.x + w > width then Vector(0, p.y + 1) else p;
      var col := q.x + w;
      if col >= width then Ok(Vector(col - width, q.y + 1)) else Ok(Vector(col, q.y))
  }

  /** The position reached after the first `n` code points. */
  function PositionAfter(cps: seq<int>, wcwidth: int -> Width, origin: Vector, n: nat, width: int)
    : Result<Vector, PositionError>
    requires n <= |cps|
  {
    if n == 0 then Ok(origin)
    else
      match PositionAfter(cps, wcwidth, origin, n - 1, width)
      case Err(e) => Err(e)
      case Ok(p) => Advance(p, cps[n - 1], wcwidth(cps[n - 1]), width)
  }

  function PositionOf(cps: seq<int>, wcwidth: int -> Width, origin: Vector, offset: int, width: int)
    : Result<Vector, PositionError>
  {
    if offset < 0 || offset > |cps| then Err(IndexOutOfBounds)
    else PositionAfter(cps, wcwidth, origin, offset, width)
  }

  /**
   * `computePosition`: the position of the code point at `offset`, with
   * `Wcwidth.of` taken as the parameter `wcwidth`. Exceptions become `Err`.
   */
  method ComputePosition(cps: seq<int>, origin: Vector, offset: int, width: int, wcwidth: int -> Width)
    returns (r: Result<Vector, PositionError>)
    ensures r == PositionOf(cps, wcwidth, origin, offset, width)
  {
    if offset < 0 {
      return Err(IndexOutOfBounds);
    }
    if offset > |cps| {
      return Err(IndexOutOfBounds);
    }
    var col := origin.x;
    var row := origin.y;
    for i := 0 to offset
      invariant PositionAfter(cps, wcwidth, origin, i, width) == Ok(Vector(col, row))
    {
      var cp := cps[i];
      var w := wcwidth(cp);
      if w == -1 {
        if cp == CR {
          col := 0;
        } else if cp == NL {
          col := 0;
          row := row + 1;
        }
      } else {
        if col + w > width {
          if w > width {
            PositionErrorPersists(cps, wcwidth, origin, i + 1, offset, width);
            return Err(UnsupportedOperation);
          }
          col := 0;
          row := row + 1;
        }
        col := col + w;
        if col >= width {
          col := col - width;
          row := row + 1;
        }
      }
    }
    r := Ok(Vector(col, row));
  }

  lemma {:induction false} PositionErrorPersists(cps: seq<int>, wcwidth: int -> Width, origin: Vector, n: nat, m: nat, width: int)
    requires n <= m <= |cps|
    requires PositionAfter(cps, wcwidth, origin, n, width).Err?
    ensures PositionAfter(cps, wcwidth, origin, m, width) == PositionAfter(cps, wcwidth, origin, n, width)
    decreases m - n
  {
    if n < m {
      PositionErrorPersists(cps, wcwidth, origin, n, m - 1, width);
    }
  }

  /** An offset outside `0..|cps|` is refused; inside it, a screen of two columns or more never fails. */
  lemma PositionBounds(cps: seq<int>, wcwidth: int -> Width, origin: Vector, offset: int, width: int)
    ensures (offset < 0 || offset > |cps|) ==> PositionOf(cps, wcwidth, origin, offset, width) == Err(IndexOutOfBounds)
    ensures 0 <= offset <= |cps| && width >= 2 ==> PositionOf(cps, wcwidth, origin, offset, width).Ok?
  {
    if 0 <= offset <= |cps| && width >= 2 {
      PositionNeverFails(cps, wcwidth, origin, offset, width);
    }
  }

  lemma {:induction false} PositionNeverFails(cps: seq<int>, wcwidth: int -> Width, origin: Vector, n: nat, width: int)
    requires n <= |cps| && width >= 2
    ensures PositionAfter(cps, wcwidth, origin, n, width).Ok?
  {
    if n > 0 {
      PositionNeverFails(cps, wcwidth, origin, n - 1, width);
    }
  }

  /**
   * Starting inside the screen, the column stays inside it and the row never
   * goes up: wrapping moves to column 0 of the next row.
   */
  lemma {:induction false} PositionStaysOnScreen(cps: seq<int>, wcwidth: int -> Width, origin: Vector, n: nat, width: int)
    requires n <= |cps| && 0 <= origin.x < width
    requires PositionAfter(cps, wcwidth, origin, n, width).Ok?
    ensures var p := PositionAfter(cps, wcwidth, origin, n, width).value;
      0 <= p.x < width && origin.y <= p.y
  {
    if n > 0 {
      PositionStaysOnScreen(cps, wcwidth, origin, n - 1, width);
    }
  }

  /** Code points one column wide that fit on the line just move the column right. */
  lemma {:induction false} PositionWithoutWrap(cps: seq<int>, wcwidth: int -> Width, origin: Vector, n: nat, width: int)
    requires n <= |cps|
    requires forall i :: 0 <= i < n ==> wcwidth(cps[i]) == 1
    requires origin.x + n < width
    ensures PositionAfter(cps, wcwidth, origin, n, width) == Ok(Vector(origin.x + n, origin.y))
  {
    if n > 0 {
      PositionWithoutWrap(cps, wcwidth, origin, n - 1, width);
    }
  }

  /** A carriage return of width -1 sends the column back to 0 on the same row; a line feed also moves down one row. */
  lemma ControlCharPosition(cps: seq<int>, wcwidth: int -> Width, origin: Vector, n: nat, width: int)
    requires 0 < n <= |cps| && wcwidth(cps[n - 1]) == -1 && (cps[n - 1] == CR || cps[n - 1] == NL)
    requires PositionAfter(cps, wcwidth, origin, n - 1, width).Ok?
    ensures var before := PositionAfter(cps, wcwidth, origin, n - 1, width).value;
      PositionAfter(cps, wcwidth, origin, n, width)
        == Ok(Vector(0, if cps[n - 1] == NL then before.y + 1 else before.y))
  {
  }
}
