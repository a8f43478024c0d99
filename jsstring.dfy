/**
 * The few JavaScript string operations the pipeline relies on:
 * `trim`, `split` on one character, `includes`, `endsWith`, ASCII
 * `toLowerCase`, and the UTF-16 view used by `charCodeAt` and by
 * regular expressions without the `u` flag.
 */
module JsString {

  /** The characters `String.prototype.trim` removes (ECMAScript WhiteSpace and LineTerminator). */
  predicate IsWhitespace(c: char) {
    var u := c as int;
    u == 0x09 || u == 0x0A || u == 0x0B || u == 0x0C || u == 0x0D || u == 0x20
    || u == 0xA0 || u == 0x1680 || (0x2000 <= u <= 0x200A) || u == 0x2028 || u == 0x2029
    || u == 0x202F || u == 0x205F || u == 0x3000 || u == 0xFEFF
  }

  predicate AllWhitespace(s: string) {
    forall i :: 0 <= i < |s| ==> IsWhitespace(s[i])
  }

  /** A string `trim` leaves as it is: empty, or starting and ending with a non-whitespace character. */
  predicate IsTrimmed(s: string) {
    s == [] || (!IsWhitespace(s[0]) && !IsWhitespace(s[|s| - 1]))
  }

  function TrimStart(s: string): (r: string)
    ensures |r| <= |s|
    ensures r == [] || !IsWhitespace(r[0])
  {
    if s != [] && IsWhitespace(s[0]) then TrimStart(s[1..]) else s
  }

  /** `TrimStart` drops a whitespace prefix. */
  lemma {:induction false} TrimStartSlice(s: string)
    ensures var r := TrimStart(s); r == s[|s| - |r|..] && AllWhitespace(s[..|s| - |r|])
    decreases |s|
  {
    if s != [] && IsWhitespace(s[0]) {
      TrimStartSlice(s[1..]);
      var r := TrimStart(s);
      var k := |s| - |r|;
      forall i | 0 <= i < k ensures IsWhitespace(s[..k][i]) {
        if i > 0 { assert s[..k][i] == s[1..][..k - 1][i - 1]; }
      }
    }
  }

  function TrimEnd(s: string): (r: string)
    ensures |r| <= |s|
    ensures r == [] || !IsWhitespace(r[|r| - 1])
  {
    if s != [] && IsWhitespace(s[|s| - 1]) then TrimEnd(s[..|s| - 1]) else s
  }

  /** `TrimEnd` drops a whitespace suffix. */
  lemma {:induction false} TrimEndSlice(s: string)
    ensures var r := TrimEnd(s); r == s[..|r|] && AllWhitespace(s[|r|..])
    decreases |s|
  {
    if s != [] && IsWhitespace(s[|s| - 1]) {
      TrimEndSlice(s[..|s| - 1]);
      var r := TrimEnd(s);
      forall i | 0 <= i < |s| - |r| ensures IsWhitespace(s[|r|..][i]) {
        if i < |s| - 1 - |r| { assert s[|r|..][i] == s[..|s| - 1][|r|..][i]; }
      }
    }
  }

  /** `s.trim()`: what is left after removing whitespace at both ends. */
  function Trim(s: string): (r: string)
    ensures IsTrimmed(r) && |r| <= |s|
  {
    var t := TrimStart(s);
    var r := TrimEnd(t);
    TrimEndSlice(t);
    assert r != [] ==> r[0] == t[0];
    r
  }

  /** The trimmed string is a slice of the original with only whitespace around it. */
  lemma TrimSlice(s: string)
    ensures var r := Trim(s);
            exists a :: 0 <= a <= |s| - |r| && r == s[a..a + |r|]
                        && AllWhitespace(s[..a]) && AllWhitespace(s[a + |r|..])
  {
    var t := TrimStart(s);
    var r := TrimEnd(t);
    TrimStartSlice(s);
    TrimEndSlice(t);
    assert r == Trim(s);
    var a := |s| - |t|;
    assert r == s[a..a + |r|];
    assert s[a + |r|..] == t[|r|..];
    assert 0 <= a <= |s| - |r| && r == s[a..a + |r|]
           && AllWhitespace(s[..a]) && AllWhitespace(s[a + |r|..]);
  }

  /** Trimming adds no character. */
  lemma TrimAddsNothing(s: string, c: char)
    requires c !in s
    ensures c !in Trim(s)
  {
    TrimSlice(s);
    var r := Trim(s);
    var a :| 0 <= a <= |s| - |r| && r == s[a..a + |r|];
  }

  lemma {:induction false} TrimStartEmptyIff(s: string)
    ensures TrimStart(s) == [] <==> AllWhitespace(s)
    decreases |s|
  {
    if s != [] && IsWhitespace(s[0]) {
      TrimStartEmptyIff(s[1..]);
      assert AllWhitespace(s[1..]) ==> AllWhitespace(s) by {
        if AllWhitespace(s[1..]) {
          forall i | 0 <= i < |s| ensures IsWhitespace(s[i]) {
            if i > 0 { assert s[1..][i - 1] == s[i]; }
          }
        }
      }
    }
  }

  lemma {:induction false} TrimEndKeepsFirst(t: string)
    requires t != [] && !IsWhitespace(t[0])
    ensures TrimEnd(t) != []
    decreases |t|
  {
    if IsWhitespace(t[|t| - 1]) {
      TrimEndKeepsFirst(t[..|t| - 1]);
    }
  }

  lemma TrimEmptyIff(s: string)
    ensures Trim(s) == [] <==> AllWhitespace(s)
  {
    TrimStartEmptyIff(s);
    var t := TrimStart(s);
    if t != [] {
      TrimEndKeepsFirst(t);
    }
  }

  lemma TrimOfTrimmed(s: string)
    requires IsTrimmed(s)
    ensures Trim(s) == s
  {
    if s != [] {
      assert TrimStart(s) == s;
    }
  }

  /** Trimming twice is trimming once. */
  lemma TrimIdempotent(s: string)
    ensures Trim(Trim(s)) == Trim(s)
  {
    TrimOfTrimmed(Trim(s));
  }

  lemma TrimStartSnoc(s: string, c: char)
    requires IsWhitespace(c)
    ensures TrimStart(s + [c]) == if AllWhitespace(s) then [] else TrimStart(s) + [c]
    decreases |s|
  {
    if s != [] {
      assert (s + [c])[1..] == s[1..] + [c];
      if IsWhitespace(s[0]) {
        TrimStartSnoc(s[1..], c);
        if AllWhitespace(s[1..]) {
          assert AllWhitespace(s) by {
            forall i | 0 <= i < |s| ensures IsWhitespace(s[i]) {
              if i > 0 { assert s[1..][i - 1] == s[i]; }
            }
          }
        } else {
          assert !AllWhitespace(s);
        }
      }
    } else {
      assert TrimStart([c]) == TrimStart([c][1..]);
    }
  }

  /** A whitespace character added at the front does not change the trimmed string. */
  lemma TrimCons(c: char, s: string)
    requires IsWhitespace(c)
    ensures Trim([c] + s) == Trim(s)
  {
    assert ([c] + s)[1..] == s;
  }

  /** A whitespace character added at the end does not change the trimmed string. */
  lemma TrimSnoc(s: string, c: char)
    requires IsWhitespace(c)
    ensures Trim(s + [c]) == Trim(s)
  {
    TrimStartSnoc(s, c);
    if AllWhitespace(s) {
      TrimEmptyIff(s);
      assert TrimEnd([]) == [];
    } else {
      var t := TrimStart(s);
      assert (t + [c])[..|t + [c]| - 1] == t;
    }
  }

  /** `s.split(sep)` for a one-character separator: the pieces between separators, always at least one. */
  function Split(s: string, sep: char): (r: seq<string>)
    ensures |r| >= 1
    ensures forall i :: 0 <= i < |r| ==> sep !in r[i]
    decreases |s|
  {
    if s == [] then [[]]
    else
      var rest := Split(s[1..], sep);
      if s[0] == sep then [[]] + rest else [[s[0]] + rest[0]] + rest[1..]
  }

  /** `parts.join(sep)`. */
  function Join(parts: seq<string>, sep: char): string
    requires |parts| >= 1
  {
    if |parts| == 1 then parts[0] else parts[0] + [sep] + Join(parts[1..], sep)
  }

  /** Splitting loses nothing: joining the pieces with the separator gives the string back. */
  lemma {:induction false} JoinSplit(s: string, sep: char)
    ensures Join(Split(s, sep), sep) == s
    decreases |s|
  {
    if s != [] {
      var rest := Split(s[1..], sep);
      JoinSplit(s[1..], sep);
      if s[0] == sep {
        assert Split(s, sep)[1..] == rest;
      } else {
        var r := Split(s, sep);
        if |rest| == 1 {
          assert r == [[s[0]] + rest[0]];
        } else {
          assert r[1..] == rest[1..];
          assert Join(r, sep) == [s[0]] + rest[0] + [sep] + Join(rest[1..], sep);
        }
      }
    }
  }

  /** Splitting a string that ends in the separator gives one more, empty, piece. */
  lemma {:induction false} SplitSnocSep(s: string, sep: char)
    ensures Split(s + [sep], sep) == Split(s, sep) + [[]]
    decreases |s|
  {
    if s == [] {
      SplitCons(sep, [], sep);
      assert s + [sep] == [sep] + [];
    } else {
      var t := s[1..];
      assert s + [sep] == [s[0]] + (t + [sep]);
      assert [s[0]] + t == s;
      SplitCons(s[0], t + [sep], sep);
      SplitCons(s[0], t, sep);
      SplitSnocSep(t, sep);
      var p := Split(t, sep);
      assert (p + [[]])[0] == p[0];
      assert (p + [[]])[1..] == p[1..] + [[]];
    }
  }

  /** `q` is `p` with `c` appended to its last piece. */
  predicate LastPieceExtended(p: seq<string>, q: seq<string>, c: char) {
    |p| >= 1 && |q| == |p| && q[..|q| - 1] == p[..|p| - 1] && q[|q| - 1] == p[|p| - 1] + [c]
  }

  /** Prefixing the first piece with the same character keeps the relation. */
  lemma LastPieceExtendedCons(p: seq<string>, q: seq<string>, c: char, x: char)
    requires LastPieceExtended(p, q, c)
    ensures LastPieceExtended([[x] + p[0]] + p[1..], [[x] + q[0]] + q[1..], c)
  {
    var P, Q := [[x] + p[0]] + p[1..], [[x] + q[0]] + q[1..];
    if |p| == 1 {
      assert q[0] == p[0] + [c];
      assert [x] + (p[0] + [c]) == ([x] + p[0]) + [c];
    } else {
      assert q[0] == q[..|q| - 1][0] == p[..|p| - 1][0] == p[0];
      assert q[1..|q| - 1] == q[..|q| - 1][1..] == p[..|p| - 1][1..] == p[1..|p| - 1];
      assert Q[..|Q| - 1] == [[x] + q[0]] + q[1..|q| - 1];
      assert P[..|P| - 1] == [[x] + p[0]] + p[1..|p| - 1];
    }
  }

  /** Adding a new first piece keeps the relation. */
  lemma LastPieceExtendedPrepend(p: seq<string>, q: seq<string>, c: char, e: string)
    requires LastPieceExtended(p, q, c)
    ensures LastPieceExtended([e] + p, [e] + q, c)
  {
    assert ([e] + q)[..|q|] == [e] + q[..|q| - 1];
    assert ([e] + p)[..|p|] == [e] + p[..|p| - 1];
  }

  /** Appending a character other than the separator extends the last piece. */
  lemma {:induction false} SplitSnocOther(s: string, c: char, sep: char)
    requires c != sep
    ensures LastPieceExtended(Split(s, sep), Split(s + [c], sep), c)
    decreases |s|
  {
    if s == [] {
      SplitCons(c, [], sep);
      assert s + [c] == [c] + [];
    } else {
      var t := s[1..];
      assert s + [c] == [s[0]] + (t + [c]);
      assert [s[0]] + t == s;
      SplitCons(s[0], t + [c], sep);
      SplitCons(s[0], t, sep);
      SplitSnocOther(t, c, sep);
      var p, q := Split(t, sep), Split(t + [c], sep);
      if s[0] != sep {
        LastPieceExtendedCons(p, q, c, s[0]);
      } else {
        LastPieceExtendedPrepend(p, q, c, []);
      }
    }
  }

  lemma SplitCons(c: char, s: string, sep: char)
    ensures var p := Split(s, sep);
            Split([c] + s, sep) == if c == sep then [[]] + p else [[c] + p[0]] + p[1..]
  {
    assert ([c] + s)[1..] == s;
  }

  /** A string without the separator is one piece. */
  lemma {:induction false} SplitNoSep(s: string, sep: char)
    requires sep !in s
    ensures Split(s, sep) == [s]
    decreases |s|
  {
    if s != [] {
      SplitNoSep(s[1..], sep);
      SplitCons(s[0], s[1..], sep);
      assert [s[0]] + s[1..] == s;
    }
  }

  /** The piece before the first separator, then the pieces of the rest. */
  lemma {:induction false} SplitAtSep(a: string, sep: char, b: string)
    requires sep !in a
    ensures Split(a + [sep] + b, sep) == [a] + Split(b, sep)
    decreases |a|
  {
    if a == [] {
      SplitCons(sep, b, sep);
      assert a + [sep] + b == [sep] + b;
    } else {
      var t := a[1..];
      SplitAtSep(t, sep, b);
      assert a + [sep] + b == [a[0]] + (t + [sep] + b);
      SplitCons(a[0], t + [sep] + b, sep);
      assert [a[0]] + t == a;
    }
  }

  /** `needle` occurs in `hay` starting at index `i`. */
  predicate OccursAt(hay: string, needle: string, i: int) {
    0 <= i && i + |needle| <= |hay| && hay[i..i + |needle|] == needle
  }

  /** `hay.includes(needle)`. */
  predicate Contains(hay: string, needle: string)
    ensures Contains(hay, needle) ==> |needle| <= |hay|
    ensures needle == [] ==> Contains(hay, needle)
  {
    assert needle == [] ==> OccursAt(hay, needle, 0);
    exists i :: 0 <= i <= |hay| && OccursAt(hay, needle, i)
  }

  /** A needle is found wherever it occurs. */
  lemma ContainsInfix(a: string, needle: string, b: string)
    ensures Contains(a + needle + b, needle)
  {
    var hay := a + needle + b;
    assert hay[|a|..|a| + |needle|] == needle;
    assert OccursAt(hay, needle, |a|);
  }

  /** `s.endsWith(suffix)`. */
  predicate EndsWith(s: string, suffix: string)
    ensures EndsWith(s, suffix) ==> |suffix| <= |s| && s == s[..|s| - |suffix|] + suffix
  {
    |suffix| <= |s| && s[|s| - |suffix|..] == suffix
  }

  /** Whatever precedes it, a string ends with its own last part. */
  lemma EndsWithConcat(p: string, suffix: string)
    ensures EndsWith(p + suffix, suffix)
  {
    assert (p + suffix)[|p|..] == suffix;
  }

  function AsciiLower(c: char): (r: char)
    ensures 'A' <= c <= 'Z' ==> 'a' <= r <= 'z'
    ensures !('A' <= c <= 'Z') ==> r == c
  {
    if 'A' <= c <= 'Z' then (c as int + 32) as char else c
  }

  /** `s.toLowerCase()` restricted to the ASCII letters. */
  function ToLower(s: string): (r: string)
    ensures |r| == |s|
    ensures forall i :: 0 <= i < |s| ==> r[i] == AsciiLower(s[i])
  {
    seq(|s|, i requires 0 <= i < |s| => AsciiLower(s[i]))
  }

  /** The number of UTF-16 code units that encode `c`. */
  function Utf16Length(c: char): nat {
    if c as int < 0x1_0000 then 1 else 2
  }

  /** The UTF-16 code units of `s`, which `charCodeAt` and `length` see. */
  function Utf16Units(s: string): (r: seq<int>)
    ensures forall i :: 0 <= i < |r| ==> 0 <= r[i] < 0x1_0000
    ensures |r| >= |s|
    ensures (forall i :: 0 <= i < |s| ==> s[i] as int < 0x1_0000) ==>
              |r| == |s| && forall i :: 0 <= i < |s| ==> r[i] == s[i] as int
  {
    if s == [] then []
    else
      var u := s[0] as int;
      (if u < 0x1_0000 then [u]
       else [0xD800 + (u - 0x1_0000) / 0x400, 0xDC00 + (u - 0x1_0000) % 0x400])
      + Utf16Units(s[1..])
  }
}
