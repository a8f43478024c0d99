/** The duplicate diagnostic of the results summary: `findDuplicates`. */
module Duplicates {
  import opened JsString

  /** Every element that already occurred earlier in the list, in list order. */
  function Repeats(codes: seq<string>): (d: seq<string>)
    ensures |d| <= |codes|
    ensures forall x :: x in d ==> x in codes
  {
    if codes == [] then []
    else
      var init := codes[..|codes| - 1];
      var last := codes[|codes| - 1];
      Repeats(init) + (if last in init then [last] else [])
  }

  /** The distinct codes of the list. */
  function Distinct(codes: seq<string>): set<string> {
    set x | x in codes
  }

  /** Each repeated occurrence is reported once: the report is as long as the list minus its distinct codes. */
  lemma {:induction false} RepeatsCount(codes: seq<string>)
    ensures |Repeats(codes)| == |codes| - |Distinct(codes)|
    decreases |codes|
  {
    if codes != [] {
      var init := codes[..|codes| - 1];
      var last := codes[|codes| - 1];
      RepeatsCount(init);
      assert codes == init + [last];
      assert Distinct(codes) == Distinct(init) + {last};
      if last in init {
        assert Distinct(codes) == Distinct(init);
        assert Repeats(codes) == Repeats(init) + [last];
      } else {
        assert last !in Distinct(init);
        assert Repeats(codes) == Repeats(init);
      }
    }
  }

  /** A code occurring k > 0 times is reported k - 1 times. */
  lemma {:induction false} RepeatsMultiplicity(codes: seq<string>, x: string)
    ensures multiset(Repeats(codes))[x] == if x in codes then multiset(codes)[x] - 1 else 0
    decreases |codes|
  {
    if codes != [] {
      var init := codes[..|codes| - 1];
      var last := codes[|codes| - 1];
      RepeatsMultiplicity(init, x);
      assert codes == init + [last];
      assert multiset(codes) == multiset(init) + multiset{last};
    }
  }

  /** `findDuplicates`: a `seen` set and a `duplicates` list filled in one pass. */
  method FindDuplicates(codes: seq<string>) returns (duplicates: seq<string>)
    ensures duplicates == Repeats(codes)
  {
    var seen: set<string> := {};
    duplicates := [];
    for i := 0 to |codes|
      invariant seen == Distinct(codes[..i])
      invariant duplicates == Repeats(codes[..i])
    {
      var code := codes[i];
      assert codes[..i + 1][..i] == codes[..i];
      assert code in codes[..i] <==> code in seen;
      if code in seen {
        duplicates := duplicates + [code];
      } else {
        seen := seen + {code};
      }
      assert codes[..i + 1] == codes[..i] + [code];
      assert Distinct(codes[..i + 1]) == Distinct(codes[..i]) + {code};
    }
    assert codes[..|codes|] == codes;
  }

  /** `["A", "B", "A", "A"]` reports `["A", "A"]`. */
  lemma RepeatsExample(codes: seq<string>)
    requires codes == ["A", "B", "A", "A"]
    ensures Repeats(codes) == ["A", "A"]
  {
    var a, b := codes[0], codes[1];
    assert a != b;
    assert Repeats([a]) == [];
    assert [a, b][..1] == [a];
    assert Repeats([a, b]) == [];
    assert [a, b, a][..2] == [a, b];
    assert Repeats([a, b, a]) == [a];
    assert codes[..3] == [a, b, a];
    assert Repeats(codes) == [a, a];
  }

  /** The summary's count of codes that are blank once trimmed (`emptyLines`). */
  function CountBlank(codes: seq<string>): (n: nat)
    ensures n <= |codes|
    ensures n == 0 <==> forall i :: 0 <= i < |codes| ==> Trim(codes[i]) != []
    ensures n == |BlankPositions(codes)|
  {
    if codes == [] then
      assert BlankPositions(codes) == {};
      0
    else
      var init := codes[..|codes| - 1];
      var last := codes[|codes| - 1];
      assert forall i :: 0 <= i < |init| ==> init[i] == codes[i];
      assert BlankPositions(codes) ==
        BlankPositions(init) + (if Trim(last) == [] then {|init|} else {});
      CountBlank(init) + (if Trim(last) == [] then 1 else 0)
  }

  /** The positions of the codes that are blank once trimmed. */
  function BlankPositions(codes: seq<string>): set<nat> {
    set i: nat | i < |codes| && Trim(codes[i]) == []
  }

  /** Codes produced by the input readers are non-empty and trimmed, so the blank count is always 0. */
  lemma BlankCountOfTrimmed(codes: seq<string>)
    requires forall i :: 0 <= i < |codes| ==> codes[i] != [] && IsTrimmed(codes[i])
    ensures CountBlank(codes) == 0
  {
    forall i | 0 <= i < |codes|
      ensures Trim(codes[i]) != []
    {
      TrimOfTrimmed(codes[i]);
    }
  }
}
