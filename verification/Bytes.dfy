/** Byte strings, with the parts of Go's `bytes`, `strings` and `strconv` packages
    that the modelled code calls. */
module Bytes {

  type byte = x: int | 0 <= x < 256

  type Bytes = seq<byte>

  datatype Option<+T> = None | Some(value: T)

  datatype Result<+T, +E> = Ok(value: T) | Err(error: E)

  const CR: byte := 13
  const LF: byte := 10
  const CRLF: Bytes := [CR, LF]
  const SPACE: byte := 32
  const TAB: byte := 9

  // The largest Go int on a 64-bit platform.
  const MAX_INT := 0x7FFF_FFFF_FFFF_FFFF

  function Min(a: int, b: int): int { if a < b then a else b }

  function Max(a: int, b: int): int { if a < b then b else a }

  // The bytes of an ASCII literal.
  function Ascii(text: string): (s: Bytes)
    ensures |s| == |text|
  {
    seq(|text|, i requires 0 <= i < |text| => text[i] as int % 256)
  }

  function Concat(parts: seq<Bytes>): Bytes {
    if parts == [] then [] else parts[0] + Concat(parts[1..])
  }

  lemma {:induction false} ConcatAppend(a: seq<Bytes>, b: seq<Bytes>)
    ensures Concat(a + b) == Concat(a) + Concat(b)
  {
    if a == [] {
      assert a + b == b;
    } else {
      assert (a + b)[0] == a[0] && (a + b)[1..] == a[1..] + b;
      ConcatAppend(a[1..], b);
      assert a[0] + (Concat(a[1..]) + Concat(b)) == a[0] + Concat(a[1..]) + Concat(b);
    }
  }

  // ---------- searching ----------

  predicate OccursAt(s: Bytes, pattern: Bytes, i: int) {
    0 <= i && i + |pattern| <= |s| && s[i..i + |pattern|] == pattern
  }

  /** The first occurrence at or after `from`, or -1. */
  function FindFrom(s: Bytes, pattern: Bytes, from: nat): (r: int)
    ensures r == -1 || (from <= r && OccursAt(s, pattern, r))
    ensures forall i :: from <= i && (r == -1 || i < r) ==> !OccursAt(s, pattern, i)
    decreases |s| - from
  {
    if OccursAt(s, pattern, from) then from
    else if |s| < from + |pattern| then -1
    else FindFrom(s, pattern, from + 1)
  }

  /** bytes.Index: the first occurrence, or -1. */
  function Find(s: Bytes, pattern: Bytes): (r: int)
    ensures r == -1 || OccursAt(s, pattern, r)
    ensures forall i :: 0 <= i && (r == -1 || i < r) ==> !OccursAt(s, pattern, i)
  {
    FindFrom(s, pattern, 0)
  }

  lemma CutAppended(a: Bytes, b: Bytes, k: nat)
    requires k <= |a|
    ensures (a + b)[..k] == a[..k] && (a + b)[k..] == a[k..] + b
  {
  }

  lemma OccursInExtension(s: Bytes, t: Bytes, pattern: Bytes, i: int)
    requires i + |pattern| <= |s|
    ensures OccursAt(s + t, pattern, i) == OccursAt(s, pattern, i)
  {
    if 0 <= i {
      assert (s + t)[i..i + |pattern|] == s[i..i + |pattern|];
    }
  }

  lemma OccursLater(front: Bytes, s: Bytes, pattern: Bytes, i: nat)
    ensures OccursAt(front + s, pattern, |front| + i) == OccursAt(s, pattern, i)
  {
    if i + |pattern| <= |s| {
      assert (front + s)[|front| + i..|front| + i + |pattern|] == s[i..i + |pattern|];
    }
  }

  lemma OccursParts(s: Bytes, a: Bytes, b: Bytes, i: int)
    requires OccursAt(s, a + b, i)
    ensures OccursAt(s, a, i) && OccursAt(s, b, i + |a|)
  {
    var m, n := i + |a|, i + |a + b|;
    assert s[i..m] == s[i..n][..|a|] == a;
    assert s[m..n] == s[i..n][|a|..] == b;
  }

  lemma OccursByte(s: Bytes, pattern: Bytes, i: int, j: nat)
    requires j < |pattern|
    ensures OccursAt(s, pattern, i) ==> s[i + j] == pattern[j]
  {
    if OccursAt(s, pattern, i) {
      assert s[i..i + |pattern|][j] == s[i + j];
    }
  }

  lemma FindIs(s: Bytes, pattern: Bytes, i: nat)
    requires OccursAt(s, pattern, i)
    requires forall k :: 0 <= k < i ==> !OccursAt(s, pattern, k)
    ensures Find(s, pattern) == i
  {
    assert OccursAt(s, pattern, i);
  }

  /** A pattern that has been found stays where it is when more bytes arrive. */
  lemma FindInExtension(s: Bytes, t: Bytes, pattern: Bytes)
    requires Find(s, pattern) >= 0
    ensures Find(s + t, pattern) == Find(s, pattern)
  {
    var i := Find(s, pattern);
    OccursInExtension(s, t, pattern, i);
    forall k | 0 <= k < i ensures !OccursAt(s + t, pattern, k) {
      OccursInExtension(s, t, pattern, k);
    }
    FindIs(s + t, pattern, i);
  }

  /** A text without the separator's first byte ends where the separator begins. */
  lemma FindAfterText(text: Bytes, sep: Bytes, rest: Bytes)
    requires sep != [] && sep[0] !in text
    ensures Find(text + sep + rest, sep) == |text|
  {
    var s := text + sep + rest;
    assert s[|text|..|text| + |sep|] == sep;
    forall k | 0 <= k < |text| ensures !OccursAt(s, sep, k) {
      assert s[k] == text[k];
      OccursByte(s, sep, k, 0);
    }
    FindIs(s, sep, |text|);
  }

  lemma FindAbsent(text: Bytes, sep: Bytes)
    requires sep != [] && sep[0] !in text
    ensures Find(text, sep) == -1
  {
    OccursByte(text, sep, Find(text, sep), 0);
  }

  lemma ByteAbsent(s: Bytes, b: byte)
    requires Find(s, [b]) == -1
    ensures b !in s
  {
    forall i | 0 <= i < |s| ensures s[i] != b {
      assert !OccursAt(s, [b], i);
      assert s[i..i + 1] == [s[i]];
    }
  }

  // ---------- splitting and joining ----------

  function Join(parts: seq<Bytes>, sep: Bytes): Bytes {
    if parts == [] then []
    else if |parts| == 1 then parts[0]
    else parts[0] + sep + Join(parts[1..], sep)
  }

  /** strings.Split: cut at every occurrence of the separator, from the left. */
  function Split(s: Bytes, sep: Bytes): (parts: seq<Bytes>)
    requires sep != []
    ensures parts != []
    ensures Join(parts, sep) == s
    ensures forall p <- parts :: Find(p, sep) == -1
    decreases |s|
  {
    var i := Find(s, sep);
    if i == -1 then [s]
    else
      var rest := Split(s[i + |sep|..], sep);
      assert Find(s[..i], sep) == -1 by { CutBefore(s, sep); }
      assert s == s[..i] + sep + s[i + |sep|..];
      assert ([s[..i]] + rest)[1..] == rest;
      [s[..i]] + rest
  }

  lemma CutBefore(s: Bytes, sep: Bytes)
    requires sep != [] && Find(s, sep) != -1
    ensures Find(s[..Find(s, sep)], sep) == -1
  {
    var i := Find(s, sep);
    var k := Find(s[..i], sep);
    if k != -1 {
      assert s[..i] + s[i..] == s;
      OccursInExtension(s[..i], s[i..], sep, k);
    }
  }

  /** Splitting undoes joining when no part contains the separator's first byte. */
  lemma {:induction false} SplitJoin(parts: seq<Bytes>, sep: Bytes)
    requires parts != [] && sep != []
    requires forall p <- parts :: sep[0] !in p
    ensures Split(Join(parts, sep), sep) == parts
  {
    var s := Join(parts, sep);
    assert sep[0] !in parts[0];
    if |parts| == 1 {
      FindAbsent(parts[0], sep);
    } else {
      var rest := Join(parts[1..], sep);
      FindAfterText(parts[0], sep, rest);
      assert s[..|parts[0]|] == parts[0];
      assert s[|parts[0]| + |sep|..] == rest;
      SplitJoin(parts[1..], sep);
      assert parts == [parts[0]] + parts[1..];
    }
  }

  lemma JoinThree(a: Bytes, b: Bytes, c: Bytes, sep: Bytes)
    ensures Join([a, b, c], sep) == a + sep + (b + sep + c)
  {
    assert [a, b, c][1..] == [b, c] && [b, c][1..] == [c];
    assert Join([b, c], sep) == b + sep + Join([c], sep);
  }

  // ---------- trimming ----------

  function TrimLeft(s: Bytes, cutset: set<byte>): Bytes {
    if s != [] && s[0] in cutset then TrimLeft(s[1..], cutset) else s
  }

  function TrimRight(s: Bytes, cutset: set<byte>): Bytes {
    if s != [] && s[|s| - 1] in cutset then TrimRight(s[..|s| - 1], cutset) else s
  }

  /** strings.Trim. */
  function Trim(s: Bytes, cutset: set<byte>): Bytes {
    TrimRight(TrimLeft(s, cutset), cutset)
  }

  lemma {:induction false} TrimLeftTakes(s: Bytes, cutset: set<byte>) returns (i: nat)
    ensures i <= |s| && TrimLeft(s, cutset) == s[i..]
    ensures forall k :: 0 <= k < i ==> s[k] in cutset
    ensures i < |s| ==> s[i] !in cutset
  {
    i := 0;
    if s != [] && s[0] in cutset {
      i := TrimLeftTakes(s[1..], cutset);
      assert forall k :: 1 <= k < |s| ==> s[k] == s[1..][k - 1];
      i := i + 1;
    }
  }

  lemma {:induction false} TrimRightTakes(s: Bytes, cutset: set<byte>) returns (j: nat)
    ensures j <= |s| && TrimRight(s, cutset) == s[..j]
    ensures forall k :: j <= k < |s| ==> s[k] in cutset
    ensures j > 0 ==> s[j - 1] !in cutset
  {
    j := |s|;
    if s != [] && s[|s| - 1] in cutset {
      j := TrimRightTakes(s[..|s| - 1], cutset);
    }
  }

  /** Trimming takes off bytes of the cutset only, and leaves none of them at either end. */
  lemma {:induction false} TrimTakes(s: Bytes, cutset: set<byte>) returns (i: nat, j: nat)
    ensures i <= j <= |s| && Trim(s, cutset) == s[i..j]
    ensures forall k :: 0 <= k < i || j <= k < |s| ==> s[k] in cutset
    ensures i < j ==> s[i] !in cutset && s[j - 1] !in cutset
  {
    hide TrimLeft, TrimRight;
    i := TrimLeftTakes(s, cutset);
    var left := s[i..];
    var n := TrimRightTakes(left, cutset);
    j := i + n;
    assert forall k :: i <= k < |s| ==> s[k] == left[k - i];
  }

  /** The length of the white-space character that `s` starts with, or 0. These are the
      UTF-8 encodings of the code points in Go's unicode.IsSpace. */
  function SpacePrefix(s: Bytes): (n: nat)
    ensures n <= |s|
  {
    if |s| >= 1 && (9 <= s[0] <= 13 || s[0] == 32) then 1
    else if |s| >= 2 && s[0] == 0xC2 && (s[1] == 0x85 || s[1] == 0xA0) then 2
    else if |s| >= 3 && IsWideSpace(s[0], s[1], s[2]) then 3
    else 0
  }

  predicate IsWideSpace(a: byte, b: byte, c: byte) {
    || (a == 0xE1 && b == 0x9A && c == 0x80)
    || (a == 0xE2 && b == 0x80 && (0x80 <= c <= 0x8A || c == 0xA8 || c == 0xA9 || c == 0xAF))
    || (a == 0xE2 && b == 0x81 && c == 0x9F)
    || (a == 0xE3 && b == 0x80 && c == 0x80)
  }

  /** The length of the white-space character that `s` ends with, or 0. */
  function SpaceSuffix(s: Bytes): (n: nat)
    ensures n <= |s|
  {
    var k := |s|;
    if k >= 1 && SpacePrefix(s[k - 1..]) == 1 then 1
    else if k >= 2 && SpacePrefix(s[k - 2..]) == 2 then 2
    else if k >= 3 && SpacePrefix(s[k - 3..]) == 3 then 3
    else 0
  }

  function TrimSpaceLeft(s: Bytes): Bytes {
    var n := SpacePrefix(s);
    if n == 0 then s else TrimSpaceLeft(s[n..])
  }

  function TrimSpaceRight(s: Bytes): Bytes {
    var n := SpaceSuffix(s);
    if n == 0 then s else TrimSpaceRight(s[..|s| - n])
  }

  /** strings.TrimSpace, Unicode white space included. */
  function TrimSpace(s: Bytes): Bytes {
    TrimSpaceRight(TrimSpaceLeft(s))
  }

  // The encoding of one white-space character.
  predicate IsSpaceChar(p: Bytes) {
    p != [] && SpacePrefix(p) == |p|
  }

  predicate AreSpaces(pieces: seq<Bytes>) {
    forall i :: 0 <= i < |pieces| ==> IsSpaceChar(pieces[i])
  }

  lemma SpaceCharAtEnds(s: Bytes)
    ensures var n := SpacePrefix(s); n > 0 ==> IsSpaceChar(s[..n])
    ensures var n := SpaceSuffix(s); n > 0 ==> IsSpaceChar(s[|s| - n..])
  {
  }

  lemma ConcatCons(first: Bytes, rest: seq<Bytes>)
    ensures Concat([first] + rest) == first + Concat(rest)
  {
    assert ([first] + rest)[1..] == rest;
  }

  lemma SpacesCons(first: Bytes, rest: seq<Bytes>)
    requires IsSpaceChar(first) && AreSpaces(rest)
    ensures AreSpaces([first] + rest)
  {
    hide IsSpaceChar;
  }

  lemma NoSpaces()
    ensures AreSpaces([]) && Concat([]) == []
  {
  }

  lemma TrimSpaceLeftTurn(s: Bytes)
    ensures var n := SpacePrefix(s); TrimSpaceLeft(s) == if n == 0 then s else TrimSpaceLeft(s[n..])
  {
  }

  lemma {:induction false} LeftSpaces(s: Bytes) returns (pieces: seq<Bytes>)
    ensures AreSpaces(pieces) && s == Concat(pieces) + TrimSpaceLeft(s)
    decreases |s|
  {
    hide *;
    TrimSpaceLeftTurn(s);
    NoSpaces();
    var n := SpacePrefix(s);
    pieces := [];
    if n > 0 {
      var more := LeftSpaces(s[n..]);
      SpaceCharAtEnds(s);
      SpacesCons(s[..n], more);
      ConcatCons(s[..n], more);
      pieces := [s[..n]] + more;
      assert s == s[..n] + s[n..];
    }
  }

  lemma {:induction false} RightSpaces(s: Bytes) returns (pieces: seq<Bytes>)
    ensures AreSpaces(pieces) && s == TrimSpaceRight(s) + Concat(pieces)
  {
    hide SpaceSuffix, IsSpaceChar;
    var n := SpaceSuffix(s);
    if n == 0 {
      pieces := [];
    } else {
      var k := |s| - n;
      var more := RightSpaces(s[..k]);
      SpaceCharAtEnds(s);
      pieces := more + [s[k..]];
      ConcatAppend(more, [s[k..]]);
      assert Concat([s[k..]]) == s[k..] + [];
      assert s == s[..k] + s[k..];
    }
  }

  lemma {:induction false} SpacesTrimmed(pieces: seq<Bytes>)
    requires AreSpaces(pieces)
    ensures TrimSpaceLeft(Concat(pieces)) == []
  {
    if pieces == [] {
    } else {
      var p, rest := pieces[0], Concat(pieces[1..]);
      assert SpacePrefix(p + rest) == |p|;
      assert (p + rest)[|p|..] == rest;
      SpacesTrimmed(pieces[1..]);
    }
  }

  ghost predicate IsBlank(s: Bytes) {
    exists pieces :: AreSpaces(pieces) && s == Concat(pieces)
  }

  /** A text trims to nothing exactly when it consists of white-space characters. */
  lemma {:induction false} TrimSpaceIff(s: Bytes)
    ensures TrimSpace(s) == [] <==> IsBlank(s)
  {
    hide SpacePrefix, SpaceSuffix, TrimSpaceLeft, TrimSpaceRight, Concat, AreSpaces;
    if TrimSpace(s) == [] {
      BlankFromEnds(s);
    }
    if pieces :| AreSpaces(pieces) && s == Concat(pieces) {
      SpacesTrimmed(pieces);
      NothingTrimmed();
    }
  }

  lemma NothingTrimmed()
    ensures TrimSpaceRight([]) == []
  {
  }

  lemma BlankFromEnds(s: Bytes)
    requires TrimSpaceRight(TrimSpaceLeft(s)) == []
    ensures IsBlank(s)
  {
    hide SpacePrefix, SpaceSuffix, TrimSpaceLeft, TrimSpaceRight, Concat, IsSpaceChar;
    var left := LeftSpaces(s);
    var right := RightSpaces(TrimSpaceLeft(s));
    ConcatAppend(left, right);
    assert s == Concat(left) + Concat(right);
    assert AreSpaces(left + right);
  }

  // ---------- letter case ----------

  function LowerByte(b: byte): byte {
    if 65 <= b <= 90 then b + 32 else b
  }

  /** Lower case of an ASCII string. */
  function Lower(s: Bytes): Bytes {
    seq(|s|, i requires 0 <= i < |s| => LowerByte(s[i]))
  }

  /** Lower case as far as a comparison with an ASCII word can see it. Besides A to Z, the
      only characters whose lower case is ASCII are U+212A (k) and, for strings.ToLower,
      U+0130 (i); strings.EqualFold does not fold U+0130. */
  function LowerWord(s: Bytes, dottedI: bool): Bytes {
    if s == [] then []
    else if s[..Min(3, |s|)] == [0xE2, 0x84, 0xAA] then [107] + LowerWord(s[3..], dottedI)
    else if dottedI && s[..Min(2, |s|)] == [0xC4, 0xB0] then [105] + LowerWord(s[2..], dottedI)
    else [LowerByte(s[0])] + LowerWord(s[1..], dottedI)
  }

  /** On ASCII text all three are the same. */
  lemma {:induction false} LowerWordAscii(s: Bytes, dottedI: bool)
    requires forall i :: 0 <= i < |s| ==> s[i] < 128
    ensures LowerWord(s, dottedI) == Lower(s)
  {
    if s == [] {
    } else {
      assert s[..Min(3, |s|)][0] == s[0] && s[..Min(2, |s|)][0] == s[0];
      LowerWordAscii(s[1..], dottedI);
      assert Lower(s) == [LowerByte(s[0])] + Lower(s[1..]);
    }
  }

  // ---------- numbers ----------

  predicate IsDigit(b: byte) { 48 <= b <= 57 }

  predicate AllDigits(s: Bytes) { forall i :: 0 <= i < |s| ==> IsDigit(s[i]) }

  function DigitsValue(s: Bytes): nat
    requires AllDigits(s)
  {
    if s == [] then 0
    else
      assert IsDigit(s[|s| - 1]);
      DigitsValue(s[..|s| - 1]) * 10 + (s[|s| - 1] as int - 48)
  }

  /** The decimal numeral of a number, as fmt's %d prints it. */
  function Decimal(n: nat): (s: Bytes)
    ensures s != [] && AllDigits(s) && DigitsValue(s) == n
  {
    if n < 10 then
      assert [48 + n][..0] == [];
      [48 + n]
    else
      var front, last := Decimal(n / 10), 48 + n % 10;
      assert (front + [last])[..|front|] == front && (front + [last])[|front|] == last;
      front + [last]
  }

  /** strconv.Atoi: an optional sign, then decimal digits, in the range of int. */
  function Atoi(s: Bytes): (r: Option<int>)
    ensures r.Some? ==> -MAX_INT - 1 <= r.value <= MAX_INT
  {
    var signed := s != [] && (s[0] == 43 || s[0] == 45);
    var digits := if signed then s[1..] else s;
    if digits == [] || !AllDigits(digits) then None
    else
      var n: int := DigitsValue(digits);
      var v: int := if signed && s[0] == 45 then -n else n;
      if -MAX_INT - 1 <= v <= MAX_INT then Some(v) else None
  }

  function Zeros(count: nat): (s: Bytes)
    ensures AllDigits(s)
  {
    seq(count, _ => 48)
  }

  lemma {:induction false} ZerosAreNothing(count: nat)
    ensures DigitsValue(Zeros(count)) == 0
  {
    if count == 0 {
    } else {
      ZerosAreNothing(count - 1);
      assert Zeros(count)[..count - 1] == Zeros(count - 1);
    }
  }

  lemma {:induction false} LeadingZeros(count: nat, digits: Bytes)
    requires AllDigits(digits)
    ensures AllDigits(Zeros(count) + digits) && DigitsValue(Zeros(count) + digits) == DigitsValue(digits)
    decreases |digits|
  {
    if digits == [] {
      ZerosAreNothing(count);
      assert Zeros(count) + [] == Zeros(count);
    } else {
      var n := |digits| - 1;
      LeadingZeros(count, digits[..n]);
      assert (Zeros(count) + digits)[..count + n] == Zeros(count) + digits[..n];
    }
  }

  lemma {:induction false} DigitsAreDecimal(s: Bytes) returns (count: nat)
    requires s != [] && AllDigits(s)
    ensures s == Zeros(count) + Decimal(DigitsValue(s))
    decreases |s|
  {
    var n := |s| - 1;
    assert IsDigit(s[n]);
    if n == 0 {
      count := 0;
    } else {
      count := DigitsAreDecimal(s[..n]);
      assert s == s[..n] + [s[n]];
      if DigitsValue(s[..n]) == 0 {
        assert Zeros(count + 1) == Zeros(count) + [48];
        count := count + 1;
      }
    }
  }

  /** A sign, then zeros, then the decimal numeral: how an integer may be written. */
  ghost predicate IsNumeral(s: Bytes, n: int) {
    exists sign: Bytes, count: nat :: IsWritten(s, n, sign, count)
  }

  predicate IsWritten(s: Bytes, n: int, sign: Bytes, count: nat) {
    && s == sign + (Zeros(count) + Decimal(if n < 0 then -n else n))
    && (if n < 0 then sign == [45] else if n > 0 then sign == [] || sign == [43] else sign in {[], [43], [45]})
  }

  /** A text is read as an integer exactly when it is one of its numerals and it is in range; in
      particular a printed length is read back as itself. */
  lemma {:induction false} AtoiIff(s: Bytes, n: int)
    ensures Atoi(s) == Some(n) <==> IsNumeral(s, n) && -MAX_INT - 1 <= n <= MAX_INT
  {
    if Atoi(s) == Some(n) {
      NumeralSound(s, n);
    }
    if IsNumeral(s, n) && -MAX_INT - 1 <= n <= MAX_INT {
      var sign: Bytes, count: nat :| IsWritten(s, n, sign, count);
      NumeralComplete(s, n, sign, count);
    }
  }

  lemma NumeralSound(s: Bytes, n: int)
    requires Atoi(s) == Some(n)
    ensures IsNumeral(s, n)
  {
    hide Decimal, DigitsValue;
    var sign := if s[0] == 43 || s[0] == 45 then s[..1] else [];
    var count := DigitsAreDecimal(s[|sign|..]);
    assert s == sign + s[|sign|..];
    assert sign == [] || sign == [s[0]];
    assert IsWritten(s, n, sign, count);
  }

  lemma NumeralComplete(s: Bytes, n: int, sign: Bytes, count: nat)
    requires IsWritten(s, n, sign, count) && -MAX_INT - 1 <= n <= MAX_INT
    ensures Atoi(s) == Some(n)
  {
    hide Decimal, DigitsValue;
    var numeral := Decimal(if n < 0 then -n else n);
    var digits := Zeros(count) + numeral;
    LeadingZeros(count, numeral);
    assert IsDigit(digits[0]);
    assert s[|sign|..] == digits;
    assert s[..|sign|] == sign;
  }

  predicate IsHex(b: byte) { 48 <= b <= 57 || 65 <= b <= 70 || 97 <= b <= 102 }

  predicate AllHex(s: Bytes) { forall i :: 0 <= i < |s| ==> IsHex(s[i]) }

  function HexDigit(b: byte): nat
    requires IsHex(b)
  {
    if b <= 57 then b - 48 else if b <= 70 then b - 55 else b - 87
  }

  function HexValue(s: Bytes): nat
    requires AllHex(s)
  {
    if s == [] then 0 else HexValue(s[..|s| - 1]) * 16 + HexDigit(s[|s| - 1])
  }

  // ---------- big-endian numbers ----------

  type uint16 = x: int | 0 <= x < 0x1_0000

  type uint32 = x: int | 0 <= x < 0x1_0000_0000

  type uint64 = x: int | 0 <= x < 0x1_0000_0000_0000_0000

  function PutU16(n: uint16): (s: Bytes)
    ensures |s| == 2 && GetU16(s, 0) == n
  {
    [n / 256, n % 256]
  }

  function GetU16(s: Bytes, i: nat): uint16
    requires i + 2 <= |s|
  {
    s[i] as int * 256 + s[i + 1] as int
  }

  function PutU32(n: uint32): (s: Bytes)
    ensures |s| == 4 && GetU32(s, 0) == n
  {
    PutU16(n / 0x1_0000) + PutU16(n % 0x1_0000)
  }

  function GetU32(s: Bytes, i: nat): uint32
    requires i + 4 <= |s|
  {
    GetU16(s, i) * 0x1_0000 + GetU16(s, i + 2)
  }

  lemma PutGetU16(s: Bytes, i: nat)
    requires i + 2 <= |s|
    ensures PutU16(GetU16(s, i)) == s[i..i + 2]
  {
  }

  lemma PutGetU32(s: Bytes, i: nat)
    requires i + 4 <= |s|
    ensures PutU32(GetU32(s, i)) == s[i..i + 4]
  {
    PutGetU16(s, i);
    PutGetU16(s, i + 2);
    PutHighLow(GetU16(s, i), GetU16(s, i + 2));
    hide PutU16, GetU16, PutU32;
    assert s[i..i + 4] == s[i..i + 2] + s[i + 2..i + 4];
  }

  lemma PutHighLow(high: uint16, low: uint16)
    ensures PutU32(high * 0x1_0000 + low) == PutU16(high) + PutU16(low)
  {
    hide PutU16;
  }

  lemma GetAt(s: Bytes, i: nat)
    requires i + 2 <= |s|
    ensures GetU16(s, i) == GetU16(s[i..i + 2], 0)
  {
  }

  lemma GetAt32(s: Bytes, i: nat)
    requires i + 4 <= |s|
    ensures GetU32(s, i) == GetU32(s[i..i + 4], 0)
  {
    assert s[i..i + 4][0..2] == s[i..i + 2] && s[i..i + 4][2..4] == s[i + 2..i + 4];
    GetAt(s, i);
    GetAt(s, i + 2);
    GetAt(s[i..i + 4], 0);
    GetAt(s[i..i + 4], 2);
  }
}
