/**
 * The filename strategy: `generateFilename` (sanitised stem plus either a
 * zero-padded position or a hash) and `simpleHash`.
 */
module Naming {
  import opened JsString

  /** `substring(0, 50)` in `generateFilename`. */
  const MaxStemLength: nat := 50

  /** The characters the sanitising regular expression keeps: `[a-zA-Z0-9\-_]`. */
  predicate IsStemChar(c: char) {
    ('a' <= c <= 'z') || ('A' <= c <= 'Z') || ('0' <= c <= '9') || c == '-' || c == '_'
  }

  predicate AllStemChars(s: string) {
    forall i :: 0 <= i < |s| ==> IsStemChar(s[i])
  }

  predicate NoDoubleUnderscore(s: string) {
    forall i :: 0 <= i < |s| - 1 ==> !(s[i] == '_' && s[i + 1] == '_')
  }

  /** What a sanitised stem looks like. */
  predicate IsStem(s: string) {
    && AllStemChars(s)
    && |s| <= MaxStemLength
    && NoDoubleUnderscore(s)
    && (s == [] || (s[0] != '_' && s[|s| - 1] != '_'))
  }

  /**
   * `.replace(/[^a-zA-Z0-9\-_]/g, '_')`. Without the `u` flag the class
   * matches single UTF-16 code units, so a character outside the Basic
   * Multilingual Plane (two code units) becomes two underscores.
   */
  function ReplaceInvalid(s: string): (r: string)
    ensures AllStemChars(r)
    ensures AllStemChars(s) ==> r == s
    ensures |r| == |Utf16Units(s)|
  {
    if s == [] then []
    else
      (if IsStemChar(s[0]) then [s[0]] else Repeat('_', Utf16Length(s[0]))) + ReplaceInvalid(s[1..])
  }

  /** The replacement works piece by piece. */
  lemma {:induction false} ReplaceInvalidAppend(a: string, b: string)
    ensures ReplaceInvalid(a + b) == ReplaceInvalid(a) + ReplaceInvalid(b)
    decreases |a|
  {
    if a == [] {
      assert a + b == b;
    } else {
      assert (a + b)[1..] == a[1..] + b;
      ReplaceInvalidAppend(a[1..], b);
    }
  }

  /** One character: kept when allowed, otherwise one `_` per UTF-16 code unit. */
  lemma ReplaceInvalidChar(c: char)
    ensures ReplaceInvalid([c]) == if IsStemChar(c) then [c] else Repeat('_', |Utf16Units([c])|)
  {
    assert [c][1..] == [];
  }

  /** `.substring(0, 50)`; after the replacement every character is one code unit. */
  function Truncate(s: string): (r: string)
    ensures |r| == if |s| <= MaxStemLength then |s| else MaxStemLength
    ensures r == s[..|r|]
  {
    if |s| <= MaxStemLength then s else s[..MaxStemLength]
  }

  /** The characters of `s` other than `_`, in order. */
  function NonUnderscores(s: string): string {
    if s == [] then [] else (if s[0] == '_' then [] else [s[0]]) + NonUnderscores(s[1..])
  }

  /** `.replace(/_+/g, '_')`: every run of underscores becomes one. */
  function CollapseUnderscores(s: string): (r: string)
    ensures |r| <= |s|
    ensures NoDoubleUnderscore(r)
    ensures AllStemChars(s) ==> AllStemChars(r)
    ensures s != [] ==> r != [] && r[0] == s[0] && r[|r| - 1] == s[|s| - 1]
    ensures NoDoubleUnderscore(s) ==> r == s
  {
    if |s| < 2 then s
    else if s[0] == '_' && s[1] == '_' then CollapseUnderscores(s[1..])
    else [s[0]] + CollapseUnderscores(s[1..])
  }

  /** Collapsing keeps the characters other than `_`, in order. */
  lemma {:induction false} CollapseKeepsOthers(s: string)
    ensures NonUnderscores(CollapseUnderscores(s)) == NonUnderscores(s)
    decreases |s|
  {
    if |s| >= 2 {
      CollapseKeepsOthers(s[1..]);
      if !(s[0] == '_' && s[1] == '_') {
        var t := CollapseUnderscores(s[1..]);
        assert ([s[0]] + t)[1..] == t;
      }
    }
  }

  /** A run of underscores becomes a single one. */
  lemma {:induction false} CollapseRun(k: nat)
    requires k >= 1
    ensures CollapseUnderscores(Repeat('_', k)) == "_"
    decreases k
  {
    if k >= 2 {
      var t := Repeat('_', k - 1);
      assert Repeat('_', k) == ['_'] + t;
      CollapseCons('_', t);
      CollapseRun(k - 1);
    }
  }

  /**
   * Collapsing distributes over a concatenation that does not split a run
   * of underscores. With `CollapseRun` this determines the result.
   */
  lemma {:induction false} CollapseAppend(a: string, b: string)
    requires a == [] || b == [] || a[|a| - 1] != '_' || b[0] != '_'
    ensures CollapseUnderscores(a + b) == CollapseUnderscores(a) + CollapseUnderscores(b)
    decreases |a|
  {
    if a == [] {
      assert a + b == b;
    } else {
      var x, t := a[0], a[1..];
      ConsSplit(a, b);
      CollapseCons(x, t + b);
      CollapseCons(x, t);
      if t != [] {
        CollapseAppend(t, b);
        var ct, cb := CollapseUnderscores(t), CollapseUnderscores(b);
        if x == '_' && t[0] == '_' {
          assert CollapseUnderscores(a + b) == ct + cb;
        } else {
          ConsAssoc(x, ct, cb);
          assert CollapseUnderscores(a + b) == [x] + (ct + cb);
        }
      } else {
        assert a == [x] && CollapseUnderscores(a) == [x];
        assert !(b != [] && x == '_' && b[0] == '_');
        assert CollapseUnderscores(a + b) == [x] + CollapseUnderscores(b);
      }
    }
  }

  lemma ConsSplit(a: string, b: string)
    requires a != []
    ensures a == [a[0]] + a[1..] && a + b == [a[0]] + (a[1..] + b)
    ensures a[1..] == [] ==> a[1..] + b == b
    ensures a[1..] != [] ==> a[1..][|a| - 2] == a[|a| - 1] && (a[1..] + b)[0] == a[1]
  {
  }

  lemma ConsAssoc(x: char, p: string, q: string)
    ensures [x] + (p + q) == ([x] + p) + q
  {
  }

  /** Collapsing a string from its first character. */
  lemma CollapseCons(x: char, t: string)
    ensures CollapseUnderscores([x] + t) ==
      if t != [] && x == '_' && t[0] == '_' then CollapseUnderscores(t) else [x] + CollapseUnderscores(t)
  {
    var s := [x] + t;
    assert s[1..] == t;
    if t != [] {
      assert s[1] == t[0];
    }
  }

  /** `.replace(/^_|_$/g, '')`: one leading and one trailing underscore go. */
  function StripEdgeUnderscores(s: string): (r: string)
    ensures var a := if s != [] && s[0] == '_' then 1 else 0;
            var b := if |s| > a && s[|s| - 1] == '_' then 1 else 0;
            r == s[a..|s| - b]
    ensures |r| <= |s|
    ensures AllStemChars(s) ==> AllStemChars(r)
    ensures NoDoubleUnderscore(s) ==> NoDoubleUnderscore(r) && (r == [] || (r[0] != '_' && r[|r| - 1] != '_'))
    ensures (s == [] || (s[0] != '_' && s[|s| - 1] != '_')) ==> r == s
  {
    var a := if s != [] && s[0] == '_' then s[1..] else s;
    assert NoDoubleUnderscore(s) && a != [] && s != [] && s[0] == '_' ==> a[0] == s[1];
    if a != [] && a[|a| - 1] == '_' then a[..|a| - 1] else a
  }

  /**
   * The `cleanCode` of `generateFilename`: replace, truncate, collapse,
   * strip, in that order. The result is always a stem.
   */
  function Sanitize(code: string): (r: string)
    ensures IsStem(r)
  {
    StripEdgeUnderscores(CollapseUnderscores(Truncate(ReplaceInvalid(code))))
  }

  /** Stems are exactly the strings sanitising leaves unchanged. */
  lemma SanitizeFixesStems(s: string)
    ensures Sanitize(s) == s <==> IsStem(s)
  {
  }

  /**
   * Truncation comes before collapsing: 48 letters followed by `___b` keep
   * only the letters, where collapsing first would keep `_b` as well.
   */
  lemma TruncateBeforeCollapse()
    ensures Sanitize(Repeat('a', 48) + "___b") == Repeat('a', 48)
    ensures StripEdgeUnderscores(Truncate(CollapseUnderscores(ReplaceInvalid(Repeat('a', 48) + "___b"))))
            == Repeat('a', 48) + "_b"
  {
    LettersThenRun(Repeat('a', 48));
  }

  /** The example above for any 48 lower-case letters. */
  lemma LettersThenRun(letters: string)
    requires |letters| == 48 && forall i :: 0 <= i < |letters| ==> 'a' <= letters[i] <= 'z'
    ensures Sanitize(letters + "___b") == letters
    ensures StripEdgeUnderscores(Truncate(CollapseUnderscores(ReplaceInvalid(letters + "___b"))))
            == letters + "_b"
  {
    LettersAreStemChars(letters, "___b");
    TruncatedRun(letters);
    CollapsedRun(letters);
  }

  lemma LettersAreStemChars(letters: string, tail: string)
    requires forall i :: 0 <= i < |letters| ==> 'a' <= letters[i] <= 'z'
    requires AllStemChars(tail)
    ensures ReplaceInvalid(letters + tail) == letters + tail
    ensures NoDoubleUnderscore(letters) && CollapseUnderscores(letters) == letters
  {
    var s := letters + tail;
    assert forall i :: 0 <= i < |s| ==> s[i] == if i < |letters| then letters[i] else tail[i - |letters|];
  }

  /** Truncating first leaves two underscores, which collapse into an edge `_`. */
  lemma TruncatedRun(letters: string)
    requires |letters| == 48 && CollapseUnderscores(letters) == letters && letters[0] != '_' && letters[47] != '_'
    ensures StripEdgeUnderscores(CollapseUnderscores(Truncate(letters + "___b"))) == letters
  {
    var t := letters + "__";
    assert Truncate(letters + "___b") == t by {
      assert (letters + "___b")[..50] == t;
    }
    assert CollapseUnderscores("__") == "_" by {
      assert "__" == Repeat('_', 2);
      CollapseRun(2);
    }
    CollapseAppend(letters, "__");
    var c := letters + "_";
    assert CollapseUnderscores(t) == c;
    assert c[0] == letters[0] && c[|c| - 1] == '_';
    assert c[0..|c| - 1] == letters;
  }

  /** Collapsing first keeps one underscore before the `b`. */
  lemma CollapsedRun(letters: string)
    requires |letters| == 48 && CollapseUnderscores(letters) == letters && letters[0] != '_' && letters[47] != '_'
    ensures StripEdgeUnderscores(Truncate(CollapseUnderscores(letters + "___b"))) == letters + "_b"
  {
    assert CollapseUnderscores("___b") == "_b" by {
      assert CollapseUnderscores("___") == "_" by {
        assert "___" == Repeat('_', 3);
        CollapseRun(3);
      }
      assert CollapseUnderscores("b") == "b";
      CollapseAppend("___", "b");
      assert "___" + "b" == "___b";
      assert "_" + "b" == "_b";
    }
    CollapseAppend(letters, "___b");
    var d := letters + "_b";
    assert CollapseUnderscores(letters + "___b") == d;
    assert Truncate(d) == d;
    assert d[0] == letters[0] && d[|d| - 1] == 'b';
    assert d[0..|d|] == d;
  }

  /** Sanitising a sanitised stem changes nothing. */
  lemma SanitizeIdempotent(code: string)
    ensures Sanitize(Sanitize(code)) == Sanitize(code)
  {
    SanitizeFixesStems(Sanitize(code));
  }

  // ---- Positional suffix: String(index + 1).padStart(4, '0') ----

  predicate IsDigit(c: char) { '0' <= c <= '9' }

  predicate AllDigits(s: string) {
    forall i :: 0 <= i < |s| ==> IsDigit(s[i])
  }

  function DigitChar(d: nat): (c: char)
    requires d < 10
    ensures IsDigit(c)
  {
    ('0' as int + d) as char
  }

  /** `String(n)` for a natural number: its decimal digits, no leading zero. */
  function Decimal(n: nat): (r: string)
    ensures |r| >= 1 && AllDigits(r)
  {
    if n < 10 then [DigitChar(n)] else Decimal(n / 10) + [DigitChar(n % 10)]
  }

  /** The number a string of decimal digits denotes (leading zeros allowed). */
  function DecimalValue(s: string): nat
    requires AllDigits(s)
  {
    if s == [] then 0 else DecimalValue(s[..|s| - 1]) * 10 + (s[|s| - 1] as int - '0' as int)
  }

  lemma {:induction false} DecimalRoundTrip(n: nat)
    ensures DecimalValue(Decimal(n)) == n
    decreases n
  {
    if n >= 10 {
      DecimalRoundTrip(n / 10);
      var r := Decimal(n);
      assert r[..|r| - 1] == Decimal(n / 10);
    }
  }

  function Repeat(c: char, n: nat): (r: string)
    ensures |r| == n && forall i :: 0 <= i < n ==> r[i] == c
  {
    if n == 0 then [] else [c] + Repeat(c, n - 1)
  }

  /** `s.padStart(width, fill)`. */
  function PadStart(s: string, width: nat, fill: char): (r: string)
    ensures |r| == if |s| >= width then |s| else width
    ensures r[|r| - |s|..] == s
    ensures forall i :: 0 <= i < |r| - |s| ==> r[i] == fill
  {
    if |s| >= width then s else Repeat(fill, width - |s|) + s
  }

  /** Leading zeros do not change the value of a digit string. */
  lemma {:induction false} LeadingZeros(k: nat, s: string)
    requires AllDigits(s)
    ensures AllDigits(Repeat('0', k) + s) && DecimalValue(Repeat('0', k) + s) == DecimalValue(s)
    decreases |s|
  {
    var z := Repeat('0', k);
    if s == [] {
      assert z + s == z;
      ZerosValue(k);
    } else {
      LeadingZeros(k, s[..|s| - 1]);
      assert (z + s)[..|z + s| - 1] == z + s[..|s| - 1];
    }
  }

  lemma {:induction false} ZerosValue(k: nat)
    ensures AllDigits(Repeat('0', k)) && DecimalValue(Repeat('0', k)) == 0
    decreases k
  {
    if k > 0 {
      ZerosValue(k - 1);
      var z := Repeat('0', k);
      assert z[..k - 1] == Repeat('0', k - 1);
    }
  }

  /** The positional suffix of the sequential policy for zero-based position `index`. */
  function SequenceNumber(index: nat): (r: string)
    ensures |r| >= 4 && AllDigits(r)
    ensures index + 1 < 10000 ==> |r| == 4
  {
    assert index + 1 < 10000 ==> |Decimal(index + 1)| <= 4 by {
      if index + 1 < 10000 { DecimalBound(index + 1, 4); }
    }
    PadStart(Decimal(index + 1), 4, '0')
  }

  lemma {:induction false} DecimalBound(n: nat, k: nat)
    requires k >= 1 && n < Pow(10, k)
    ensures |Decimal(n)| <= k
    decreases k
  {
    if n >= 10 {
      DecimalBound(n / 10, k - 1);
    }
  }

  function Pow(b: nat, k: nat): (r: nat)
    ensures b >= 1 ==> r >= 1
  {
    if k == 0 then 1 else b * Pow(b, k - 1)
  }

  /** The suffix reads back as the one-based position. */
  lemma SequenceNumberValue(index: nat)
    ensures DecimalValue(SequenceNumber(index)) == index + 1
  {
    var d := Decimal(index + 1);
    DecimalRoundTrip(index + 1);
    if |d| < 4 {
      LeadingZeros(4 - |d|, d);
    }
  }

  /** `${cleanCode}_${String(index + 1).padStart(4, '0')}.png`. */
  function SequentialName(stem: string, index: nat): string {
    stem + "_" + SequenceNumber(index) + ".png"
  }

  /** A sequential filename determines both its stem and its position. */
  lemma SequentialNameInjective(s1: string, i: nat, s2: string, j: nat)
    requires SequentialName(s1, i) == SequentialName(s2, j)
    ensures s1 == s2 && i == j
  {
    var d1, d2 := SequenceNumber(i), SequenceNumber(j);
    var x, y := s1 + "_" + d1, s2 + "_" + d2;
    assert x == SequentialName(s1, i)[..|x|];
    assert y == SequentialName(s2, j)[..|y|];
    assert |x| == |y|;
    assert x == y;
    // The character before the shorter suffix would be `_` in one name and a digit in the other.
    assert x[|s1|] == '_' && y[|s2|] == '_';
    assert forall k :: 0 <= k < |d1| ==> x[|s1| + 1 + k] == d1[k];
    assert forall k :: 0 <= k < |d2| ==> y[|s2| + 1 + k] == d2[k];
    assert |d1| == |d2|;
    assert d1 == x[|x| - |d1|..] == y[|y| - |d2|..] == d2;
    assert s1 == x[..|s1|] == y[..|s2|] == s2;
    SequenceNumberValue(i);
    SequenceNumberValue(j);
  }

  // ---- simpleHash ----

  const TwoTo32: int := 0x1_0000_0000
  const TwoTo31: int := 0x8000_0000

  predicate IsInt32(x: int) { -TwoTo31 <= x < TwoTo31 }

  /** ECMAScript ToInt32: the signed 32-bit integer congruent to `x` modulo 2^32. */
  function ToInt32(x: int): (r: int)
    ensures IsInt32(r)
    ensures (x - r) % TwoTo32 == 0
  {
    var m := x % TwoTo32;
    if m >= TwoTo31 then m - TwoTo32 else m
  }

  /** ToInt32 depends only on the value modulo 2^32. */
  lemma ToInt32Congruent(x: int, y: int)
    requires (x - y) % TwoTo32 == 0
    ensures ToInt32(x) == ToInt32(y)
  {
    var q := (x - y) / TwoTo32;
    assert x == y + q * TwoTo32;
    assert x % TwoTo32 == y % TwoTo32;
  }

  /** One step of the reference hash: `h := ToInt32(31 * h + unit)`. */
  function HashStep(h: int, unit: int): int {
    ToInt32(31 * h + unit)
  }

  /** The reference fold over the UTF-16 code units, starting at 0. */
  function RollingHash(units: seq<int>): (h: int)
    ensures IsInt32(h)
  {
    if units == [] then 0 else HashStep(RollingHash(units[..|units| - 1]), units[|units| - 1])
  }

  /**
   * The source's step `((hash << 5) - hash) + char` followed by `hash & hash`
   * is the reference step: `<<` is ToInt32 of a multiplication by 32, and
   * `& hash` is ToInt32.
   */
  lemma ShiftSubtractStep(h: int, unit: int)
    requires IsInt32(h)
    ensures ToInt32(ToInt32(h * 32) - h + unit) == HashStep(h, unit)
  {
    var s := ToInt32(h * 32);
    assert (h * 32 - s) % TwoTo32 == 0;
    assert (s - h + unit) - (31 * h + unit) == -(h * 32 - s);
    ToInt32Congruent(s - h + unit, 31 * h + unit);
  }

  function Abs(x: int): nat { if x < 0 then -x else x }

  predicate IsHexDigit(c: char) { ('0' <= c <= '9') || ('a' <= c <= 'f') }

  function HexDigitChar(d: nat): (c: char)
    requires d < 16
    ensures IsHexDigit(c)
  {
    if d < 10 then ('0' as int + d) as char else ('a' as int + d - 10) as char
  }

  function HexDigitValue(c: char): (d: nat)
    requires IsHexDigit(c)
    ensures d < 16 && HexDigitChar(d) == c
  {
    if c <= '9' then c as int - '0' as int else c as int - 'a' as int + 10
  }

  /** `n.toString(16)`: lowercase hexadecimal digits without leading zeros. */
  function Hex(n: nat): (r: string)
    ensures |r| >= 1 && forall i :: 0 <= i < |r| ==> IsHexDigit(r[i])
    ensures n > 0 ==> r[0] != '0'
  {
    if n < 16 then [HexDigitChar(n)] else Hex(n / 16) + [HexDigitChar(n % 16)]
  }

  function HexValue(s: string): nat
    requires forall i :: 0 <= i < |s| ==> IsHexDigit(s[i])
  {
    if s == [] then 0 else HexValue(s[..|s| - 1]) * 16 + HexDigitValue(s[|s| - 1])
  }

  lemma {:induction false} HexRoundTrip(n: nat)
    ensures HexValue(Hex(n)) == n
    decreases n
  {
    if n >= 16 {
      HexRoundTrip(n / 16);
      var r := Hex(n);
      assert r[..|r| - 1] == Hex(n / 16);
    }
  }

  lemma {:induction false} HexLength(n: nat, k: nat)
    requires k >= 1 && n < Pow(16, k)
    ensures |Hex(n)| <= k
    decreases k
  {
    if n >= 16 {
      HexLength(n / 16, k - 1);
    }
  }

  /** `simpleHash(code)` as a value: the hex rendering of |h| for the rolling hash h of the code units. */
  function HashString(code: string): string {
    Hex(Abs(RollingHash(Utf16Units(code))))
  }

  /** The hash text has one to eight lowercase hex digits and reads back as |h|. */
  lemma HashStringShape(code: string)
    ensures var r := HashString(code);
            1 <= |r| <= 8 && (forall i :: 0 <= i < |r| ==> IsHexDigit(r[i]))
            && HexValue(r) == Abs(RollingHash(Utf16Units(code)))
  {
    var a := Abs(RollingHash(Utf16Units(code)));
    assert Pow(16, 8) == TwoTo32;
    HexLength(a, 8);
    HexRoundTrip(a);
  }

  /** The empty code hashes to "0". */
  lemma HashOfEmpty()
    ensures HashString("") == "0"
  {
  }

  /** The largest magnitude, |-2^31|, needs all eight digits. */
  lemma HashLargestMagnitude()
    ensures Hex(Abs(-TwoTo31)) == "80000000"
  {
    var z := HexDigitChar(0);
    assert z == '0';
    assert Hex(0x8) == "8";
    assert Hex(0x80) == "8" + [z];
    assert Hex(0x800) == "80" + [z];
    assert Hex(0x8000) == "800" + [z];
    assert Hex(0x8_0000) == "8000" + [z];
    assert Hex(0x80_0000) == "80000" + [z];
    assert Hex(0x800_0000) == "800000" + [z];
    assert Hex(0x8000_0000) == "8000000" + [z];
  }

  /** `simpleHash`: the rolling hash loop over the code units, then `Math.abs`, `toString(16)`, `substring(0, 8)`. */
  method SimpleHash(str: string) returns (r: string)
    ensures r == HashString(str)
    ensures 1 <= |r| <= 8
  {
    var units := Utf16Units(str);
    var hash := 0;
    for i := 0 to |units|
      invariant hash == RollingHash(units[..i])
    {
      var ch := units[i];
      ShiftSubtractStep(hash, ch);
      hash := ToInt32(hash * 32) - hash + ch;
      hash := ToInt32(hash);
      assert units[..i + 1][..i] == units[..i];
    }
    assert units[..|units|] == units;
    var hex := Hex(Abs(hash));
    HashStringShape(str);
    r := hex[..if |hex| < 8 then |hex| else 8];
  }

  // ---- generateFilename ----

  /** The value of the "filename pattern" select: `'hash'` selects hashing, anything else the position. */
  datatype NamingPolicy = Sequential | Hashed

  function PolicyOf(selectValue: string): (p: NamingPolicy)
    ensures p == Hashed <==> selectValue == "hash"
  {
    if selectValue == "hash" then Hashed else Sequential
  }

  /** `${cleanCode}_${hash}.png`. */
  function HashName(stem: string, hash: string): string {
    stem + "_" + hash + ".png"
  }

  /** The filename `generateFilename(code, index)` returns under a policy. */
  function FileName(code: string, index: nat, policy: NamingPolicy): string {
    match policy
    case Hashed => HashName(Sanitize(code), HashString(code))
    case Sequential => SequentialName(Sanitize(code), index)
  }

  /** `generateFilename`, given the value `pattern` the select holds when it is called. */
  method GenerateFilename(code: string, index: nat, pattern: string) returns (name: string)
    ensures name == FileName(code, index, PolicyOf(pattern))
  {
    var cleanCode := Sanitize(code);
    if pattern == "hash" {
      var hash := SimpleHash(code);
      name := cleanCode + "_" + hash + ".png";
    } else {
      name := cleanCode + "_" + PadStart(Decimal(index + 1), 4, '0') + ".png";
    }
  }

  /** Every filename is a sanitised stem, an underscore, a tag of digits, and `.png`. */
  lemma FileNameShape(code: string, index: nat, policy: NamingPolicy)
    ensures var name := FileName(code, index, policy);
            var stem := Sanitize(code);
            |name| > |stem| + 5 && name[..|stem| + 1] == stem + "_" && EndsWith(name, ".png")
  {
    var tag := if policy == Hashed then HashString(code) else SequenceNumber(index);
    if policy == Hashed {
      HashStringShape(code);
    }
    TaggedNameShape(Sanitize(code), tag);
  }

  lemma TaggedNameShape(stem: string, tag: string)
    requires tag != []
    ensures var name := stem + "_" + tag + ".png";
            |name| > |stem| + 5 && name[..|stem| + 1] == stem + "_" && EndsWith(name, ".png")
  {
    var name := stem + "_" + tag + ".png";
    assert name[..|stem| + 1] == stem + "_";
    EndsWithConcat(stem + "_" + tag, ".png");
  }

  /** Under the sequential policy two positions never share a filename, whatever the codes are. */
  lemma SequentialNamesDistinct(c1: string, i: nat, c2: string, j: nat)
    requires i != j
    ensures FileName(c1, i, Sequential) != FileName(c2, j, Sequential)
  {
    if FileName(c1, i, Sequential) == FileName(c2, j, Sequential) {
      SequentialNameInjective(Sanitize(c1), i, Sanitize(c2), j);
    }
  }

  /** Under the hash policy the filename depends only on the code: equal codes collide. */
  lemma HashNameIgnoresPosition(code: string, i: nat, j: nat)
    ensures FileName(code, i, Hashed) == FileName(code, j, Hashed)
  {
  }
}
