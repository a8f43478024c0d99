/**
 * The batch state of `QRCodeGenerator`: the code list, the archive being
 * filled (filename to PNG blob), the progress counters and the previews.
 * The rendering of one code (encoder, canvas, PNG encoding) is an input:
 * `render(code)` says whether it produced a blob and a data URL.
 */
module Batch {
  import opened Wrappers
  import opened JsString
  import opened Input
  import opened Naming
  import opened Duplicates
  import opened Arith

  /** An opaque PNG blob. */
  datatype Blob = Blob(bytes: seq<bv8>)

  /** What rendering one code gives: the PNG and its data URL, or a thrown error. */
  datatype Rendering = Rendered(png: Blob, dataUrl: string) | RenderFailed

  /** An entry of `qrPreviews`. */
  datatype Preview = Preview(code: string, filename: string, dataUrl: string)

  /** The figures `showResults` reports. */
  datatype Summary = Summary(generated: nat, total: nat, duplicates: nat, emptyLines: nat)

  /** How a run of `generateQRCodes` ends. */
  datatype BatchOutcome = InputRejected(error: InputError) | Cancelled | Completed(summary: Summary)

  // ---- the batch as values ----

  /**
   * The batch is described for any naming function `name(code, index)`;
   * `Namer(PolicyOf(pattern))` is the one `generateFilename` implements.
   */
  function Namer(policy: NamingPolicy): (string, nat) -> string {
    (c: string, i: nat) => FileName(c, i, policy)
  }

  /** The preview list after a batch, starting from `before`: one more entry per code that rendered, in code order. */
  function Previews(before: seq<Preview>, codes: seq<string>, name: (string, nat) -> string,
                    render: string -> Rendering): (ps: seq<Preview>)
    ensures |before| <= |ps| <= |before| + |codes|
  {
    if codes == [] then before
    else
      var init := codes[..|codes| - 1];
      var last := codes[|codes| - 1];
      var out := render(last);
      Previews(before, init, name, render) +
        (if out.Rendered? then [Preview(last, name(last, |init|), out.dataUrl)] else [])
  }

  /** The archive after a batch: each rendered code stores its blob under its filename, later ones overwriting. */
  function Archive(base: map<string, Blob>, codes: seq<string>, name: (string, nat) -> string,
                   render: string -> Rendering): map<string, Blob>
  {
    if codes == [] then base
    else
      var init := codes[..|codes| - 1];
      var last := codes[|codes| - 1];
      var out := render(last);
      var m := Archive(base, init, name, render);
      if out.Rendered? then m[name(last, |init|) := out.png] else m
  }

  /** The number of codes whose rendering failed. */
  function Failures(codes: seq<string>, render: string -> Rendering): nat {
    if codes == [] then 0
    else Failures(codes[..|codes| - 1], render) + (if render(codes[|codes| - 1]).RenderFailed? then 1 else 0)
  }

  function FileNames(ps: seq<Preview>): set<string> {
    set p | p in ps :: p.filename
  }

  lemma FileNamesSnoc(ps: seq<Preview>, p: Preview)
    ensures FileNames(ps + [p]) == FileNames(ps) + {p.filename}
  {
    assert forall q :: q in ps + [p] <==> q in ps || q == p;
  }

  /** One more code extends the batch by that code's step. */
  lemma BatchSnoc(before: seq<Preview>, base: map<string, Blob>, codes: seq<string>, name: (string, nat) -> string,
                  render: string -> Rendering, i: nat)
    requires i < |codes|
    ensures var out := render(codes[i]);
      Previews(before, codes[..i + 1], name, render) == Previews(before, codes[..i], name, render) +
        (if out.Rendered? then [Preview(codes[i], name(codes[i], i), out.dataUrl)] else []) &&
      Archive(base, codes[..i + 1], name, render) ==
        (if out.Rendered? then Archive(base, codes[..i], name, render)[name(codes[i], i) := out.png]
         else Archive(base, codes[..i], name, render))
  {
    assert codes[..i + 1][..i] == codes[..i];
  }

  /** Every code is either counted as generated or failed. */
  lemma {:induction false} GeneratedPlusFailed(codes: seq<string>, name: (string, nat) -> string, render: string -> Rendering)
    ensures |Previews([], codes, name, render)| + Failures(codes, render) == |codes|
    decreases |codes|
  {
    if codes != [] {
      GeneratedPlusFailed(codes[..|codes| - 1], name, render);
    }
  }

  /** The archive's names are the base's and the previews' filenames. */
  lemma {:induction false} ArchiveKeys(base: map<string, Blob>, codes: seq<string>, name: (string, nat) -> string,
                                       render: string -> Rendering)
    ensures Archive(base, codes, name, render).Keys == base.Keys + FileNames(Previews([], codes, name, render))
    decreases |codes|
  {
    if codes != [] {
      var init := codes[..|codes| - 1];
      ArchiveKeys(base, init, name, render);
      var last := codes[|codes| - 1];
      var out := render(last);
      if out.Rendered? {
        FileNamesSnoc(Previews([], init, name, render), Preview(last, name(last, |init|), out.dataUrl));
      }
    }
  }

  /** Preview `p` is the one of some position `j` of the list: its code and its filename for that position. */
  ghost predicate IndexedPreview(codes: seq<string>, name: (string, nat) -> string, p: Preview) {
    exists j: nat :: j < |codes| && p.code == codes[j] && p.filename == name(codes[j], j)
  }

  /** Each preview belongs to one position of the list. */
  lemma {:induction false} PreviewsIndexed(codes: seq<string>, name: (string, nat) -> string, render: string -> Rendering)
    ensures forall k :: 0 <= k < |Previews([], codes, name, render)| ==> IndexedPreview(codes, name, Previews([], codes, name, render)[k])
    decreases |codes|
  {
    if codes != [] {
      var init := codes[..|codes| - 1];
      PreviewsIndexed(init, name, render);
      var ps := Previews([], codes, name, render);
      var qs := Previews([], init, name, render);
      forall k | 0 <= k < |ps|
        ensures IndexedPreview(codes, name, ps[k])
      {
        if k < |qs| {
          assert ps[k] == qs[k];
          assert IndexedPreview(init, name, qs[k]);
          var j: nat :| j < |init| && qs[k].code == init[j] && qs[k].filename == name(init[j], j);
          assert codes[j] == init[j];
        } else {
          assert ps[k].code == codes[|init|];
        }
      }
    }
  }

  /**
   * When different positions always get different names, no entry is
   * overwritten: the archive holds one file per generated code.
   */
  lemma {:induction false} DistinctNamesArchiveSize(codes: seq<string>, name: (string, nat) -> string,
                                                    render: string -> Rendering)
    requires forall c1, i, c2, j :: i != j ==> name(c1, i) != name(c2, j)
    ensures |Archive(map[], codes, name, render).Keys| == |Previews([], codes, name, render)|
    decreases |codes|
  {
    if codes != [] {
      var init := codes[..|codes| - 1];
      var last := codes[|codes| - 1];
      DistinctNamesArchiveSize(init, name, render);
      var out := render(last);
      if out.Rendered? {
        var n := name(last, |init|);
        var m := Archive(map[], init, name, render);
        ArchiveKeys(map[], init, name, render);
        PreviewsIndexed(init, name, render);
        var qs := Previews([], init, name, render);
        assert m[n := out.png].Keys == m.Keys + {n};
      }
    }
  }

  /** Under the sequential policy no entry is overwritten. */
  lemma SequentialArchiveSize(codes: seq<string>, render: string -> Rendering)
    ensures |Archive(map[], codes, Namer(Sequential), render).Keys| == |Previews([], codes, Namer(Sequential), render)|
  {
    var name := Namer(Sequential);
    forall c1, i, c2, j | i != j
      ensures name(c1, i) != name(c2, j)
    {
      SequentialNamesDistinct(c1, i, c2, j);
    }
    DistinctNamesArchiveSize(codes, name, render);
  }

  /**
   * Last write wins: a rendered code's blob is what the archive holds under its
   * filename when no later rendered code has the same filename.
   */
  lemma {:induction false} ArchiveLastWriteWins(base: map<string, Blob>, codes: seq<string>, name: (string, nat) -> string,
                                                render: string -> Rendering, i: nat)
    requires i < |codes| && render(codes[i]).Rendered?
    requires forall j :: i < j < |codes| && render(codes[j]).Rendered? ==> name(codes[j], j) != name(codes[i], i)
    ensures var a := Archive(base, codes, name, render);
      name(codes[i], i) in a && a[name(codes[i], i)] == render(codes[i]).png
    decreases |codes|
  {
    var init := codes[..|codes| - 1];
    var last := codes[|codes| - 1];
    if i < |init| {
      assert forall j :: i < j < |init| ==> init[j] == codes[j];
      assert init[i] == codes[i];
      ArchiveLastWriteWins(base, init, name, render, i);
      if render(last).Rendered? {
        assert name(last, |init|) != name(codes[i], i);
      }
    }
  }

  /**
   * Under the hash policy a repeated code overwrites its own entry: two equal
   * codes count as two generated QR codes but leave one file in the archive.
   */
  lemma HashedRepeatOverwrites(codes: seq<string>, render: string -> Rendering)
    requires |codes| == 2 && codes[0] == codes[1] && render(codes[0]).Rendered?
    ensures |Previews([], codes, Namer(Hashed), render)| == 2
    ensures |Archive(map[], codes, Namer(Hashed), render).Keys| == 1
  {
    var c := codes[0];
    var name := Namer(Hashed);
    HashNameIgnoresPosition(c, 0, 1);
    assert name(c, 0) == name(c, 1);
    assert codes[..1] == [c];
    assert [c][..0] == [];
    assert Archive(map[], [c], name, render) == map[name(c, 0) := render(c).png];
    assert Archive(map[], codes, name, render).Keys == {name(c, 0)};
  }

  // ---- updateProgress ----

  /**
   * `Math.round(generatedCount / totalCount * 100)` in exact arithmetic: the
   * nearest integer to `100 * done / total`, halves rounded up.
   */
  function Percent(done: int, total: int): (p: int)
    requires total > 0
    ensures 2 * total * p - total <= 200 * done < 2 * total * p + total
  {
    var p := (200 * done + total) / (2 * total);
    DivBracket(200 * done + total, 2 * total, p);
    p
  }

  /** The bar never leaves 0..100 while the count does not exceed the total, and ends at 100. */
  lemma PercentRange(done: int, total: int)
    requires total > 0 && 0 <= done <= total
    ensures 0 <= Percent(done, total) <= 100
    ensures done == total ==> Percent(done, total) == 100
    ensures done == 0 ==> Percent(done, total) == 0
  {
    var p := Percent(done, total);
    var t2 := 2 * total;
    assert t2 * p - total <= 200 * done < t2 * p + total;
    MulMonotone(p, -1, t2);
    MulMonotone(101, p, t2);
    MulMonotone(p, 99, t2);
    MulMonotone(1, p, t2);
  }

  /** The percentages `updateProgress` shows, in order, while the count rises from `start` to `end`. */
  function Shown(start: nat, end: nat, total: nat): (ps: seq<int>)
    requires start <= end && total > 0
    ensures |ps| == end - start
  {
    if end == start then [] else Shown(start, end - 1, total) + [Percent(end, total)]
  }

  /**
   * From a count of 0, while no more codes are generated than the total,
   * every percentage shown lies in 0..100, and the last is 100 when every
   * code was generated.
   */
  lemma {:induction false} ShownRange(end: nat, total: nat)
    requires 0 < total && end <= total
    ensures forall k :: 0 <= k < end ==> 0 <= Shown(0, end, total)[k] <= 100
    ensures 0 < end == total ==> Shown(0, end, total)[end - 1] == 100
    decreases end
  {
    if end > 0 {
      ShownRange(end - 1, total);
      PercentRange(end, total);
      var ps := Shown(0, end, total);
      assert forall k :: 0 <= k < end - 1 ==> ps[k] == Shown(0, end - 1, total)[k];
    }
  }

  // ---- the generator object ----

  class QRCodeGenerator {
    var codes: seq<string>
    var zip: Option<map<string, Blob>>
    var isGenerating: bool
    var isCancelled: bool
    var generatedCount: nat
    var totalCount: nat
    var qrPreviews: seq<Preview>
    var showPreview: bool

    /**
     * The counters track the lists, and an archive
     * holds exactly the files the previews name (there is none before the
     * first batch or after clearing, and then no previews either).
     */
    ghost predicate Valid()
      reads this
    {
      totalCount == |codes| && generatedCount == |qrPreviews| &&
      (zip.None? ==> qrPreviews == []) &&
      (zip.Some? ==> zip.value.Keys == FileNames(qrPreviews) && |codes| > 0)
    }

    constructor()
      ensures Valid()
      ensures codes == [] && zip.None? && !isGenerating && !isCancelled
      ensures generatedCount == 0 && totalCount == 0 && qrPreviews == [] && !showPreview
    {
      codes := [];
      zip := None;
      isGenerating := false;
      isCancelled := false;
      generatedCount := 0;
      totalCount := 0;
      qrPreviews := [];
      showPreview := false;
    }

    /**
     * The set-up part of `generateQRCodes`: read the codes, reset the counters
     * and open an empty archive; a rejected input only resets the running flag.
     */
    method StartGeneration(text: string) returns (error: Option<InputError>)
      requires Valid()
      modifies this
      ensures Valid()
      ensures error.Some? <==> AllWhitespace(text)
      ensures error.Some? ==>
        error.value == EmptyText && !isGenerating &&
        codes == old(codes) && zip == old(zip) && isCancelled == old(isCancelled) &&
        generatedCount == old(generatedCount) && totalCount == old(totalCount) &&
        qrPreviews == old(qrPreviews) && showPreview == old(showPreview)
      ensures error.None? ==>
        codes == TrimmedLines(text) && |codes| > 0 && totalCount == |codes| &&
        generatedCount == 0 && isGenerating && !isCancelled && qrPreviews == [] && !showPreview &&
        zip == Some(map[])
    {
      var r := GetCodesFromInput(text);
      if r.Err? {
        error := Some(r.error);
        ResetGeneration();
        return;
      }
      error := None;
      codes := r.value;
      totalCount := |codes|;
      generatedCount := 0;
      isGenerating := true;
      isCancelled := false;
      qrPreviews := [];
      showPreview := false;
      zip := Some(map[]);
    }

    /**
     * `generateQRCode` for one code: nothing when the batch is cancelled, when
     * rendering throws or when there is no archive to write to; otherwise the
     * blob is stored under the filename (replacing an entry of that name), a
     * preview is appended and the count goes up by one.
     */
    method GenerateQRCode(code: string, index: nat, pattern: string, outcome: Rendering)
      returns (percent: Option<int>)
      requires Valid()
      modifies this
      ensures Valid()
      ensures codes == old(codes) && totalCount == old(totalCount) && isCancelled == old(isCancelled) &&
        isGenerating == old(isGenerating) && showPreview == old(showPreview)
      ensures old(isCancelled) || old(zip).None? || outcome.RenderFailed? ==>
        zip == old(zip) && qrPreviews == old(qrPreviews) && generatedCount == old(generatedCount) &&
        percent.None?
      ensures !old(isCancelled) && old(zip).Some? && outcome.Rendered? ==>
        var name := Namer(PolicyOf(pattern))(code, index);
        zip == Some(old(zip).value[name := outcome.png]) &&
        qrPreviews == old(qrPreviews) + [Preview(code, name, outcome.dataUrl)] &&
        generatedCount == old(generatedCount) + 1 &&
        totalCount > 0 && percent == Some(Percent(generatedCount, totalCount))
    {
      if isCancelled {
        return None;
      }
      if outcome.RenderFailed? {
        return None;
      }
      var filename := GenerateFilename(code, index, pattern);
      percent := AddToArchive(code, filename, outcome.png, outcome.dataUrl);
    }

    /**
     * The part of `generateQRCode` after the filename is known: `zip.file`
     * throws when there is no archive, otherwise the entry, the preview and
     * the count are added, and `updateProgress` shows the new percentage.
     */
    method AddToArchive(code: string, filename: string, png: Blob, dataUrl: string)
      returns (percent: Option<int>)
      requires Valid()
      modifies this
      ensures Valid()
      ensures codes == old(codes) && totalCount == old(totalCount) && isCancelled == old(isCancelled) &&
        isGenerating == old(isGenerating) && showPreview == old(showPreview)
      ensures old(zip).None? ==>
        zip == old(zip) && qrPreviews == old(qrPreviews) && generatedCount == old(generatedCount) &&
        percent.None?
      ensures old(zip).Some? ==>
        zip == Some(old(zip).value[filename := png]) &&
        qrPreviews == old(qrPreviews) + [Preview(code, filename, dataUrl)] &&
        generatedCount == old(generatedCount) + 1 &&
        totalCount > 0 && percent == Some(Percent(generatedCount, totalCount))
    {
      if zip.None? {
        return None;
      }
      var p := Preview(code, filename, dataUrl);
      FileNamesSnoc(qrPreviews, p);
      zip := Some(zip.value[filename := png]);
      qrPreviews := qrPreviews + [p];
      generatedCount := generatedCount + 1;
      percent := Some(Percent(generatedCount, totalCount));
    }

    /**
     * `processAllCodes`: one `generateQRCode` step per code, in list order,
     * given the value `pattern` of the filename select. `progress` lists the
     * percentages shown, one per generated code.
     */
    method ProcessAllCodes(pattern: string, render: string -> Rendering) returns (progress: seq<int>)
      requires Valid()
      modifies this
      ensures Valid()
      ensures codes == old(codes) && totalCount == old(totalCount) && isCancelled == old(isCancelled) &&
        isGenerating == old(isGenerating) && showPreview == old(showPreview)
      ensures old(isCancelled) || old(zip).None? ==>
        zip == old(zip) && qrPreviews == old(qrPreviews) && generatedCount == old(generatedCount) &&
        progress == []
      ensures !old(isCancelled) && old(zip).Some? ==>
        zip == Some(Archive(old(zip).value, codes, Namer(PolicyOf(pattern)), render)) &&
        qrPreviews == Previews(old(qrPreviews), codes, Namer(PolicyOf(pattern)), render) &&
        old(generatedCount) <= generatedCount && totalCount > 0 &&
        progress == Shown(old(generatedCount), generatedCount, totalCount)
    {
      ghost var live := !isCancelled && zip.Some?;
      ghost var base := if live then zip.value else map[];
      ghost var before := qrPreviews;
      var name := Namer(PolicyOf(pattern));
      progress := [];
      for i := 0 to |codes|
        invariant Valid()
        invariant codes == old(codes) && totalCount == old(totalCount) && isCancelled == old(isCancelled) &&
          isGenerating == old(isGenerating) && showPreview == old(showPreview)
        invariant !live ==> zip == old(zip) && qrPreviews == before && progress == []
        invariant live ==>
          zip == Some(Archive(base, codes[..i], name, render)) &&
          qrPreviews == Previews(before, codes[..i], name, render)
        invariant live ==>
          |before| <= generatedCount && totalCount > 0 &&
          progress == Shown(|before|, generatedCount, totalCount)
      {
        BatchSnoc(before, base, codes, name, render, i);
        ghost var count := generatedCount;
        var percent := GenerateQRCode(codes[i], i, pattern, render(codes[i]));
        if percent.Some? {
          assert live && generatedCount == count + 1 && percent.value == Percent(generatedCount, totalCount);
          assert Shown(|before|, generatedCount, totalCount) == Shown(|before|, count, totalCount) + [percent.value];
          progress := progress + [percent.value];
        } else {
          assert generatedCount == count;
        }
      }
      assert codes[..|codes|] == codes;
    }

    /**
     * The end of `generateQRCodes`: unless cancelled, `showResults` reports the
     * figures of the batch and resets the running flag.
     */
    method FinishGeneration() returns (summary: Option<Summary>)
      requires Valid()
      modifies this
      ensures Valid()
      ensures codes == old(codes) && zip == old(zip) && isCancelled == old(isCancelled) &&
        generatedCount == old(generatedCount) && totalCount == old(totalCount) &&
        qrPreviews == old(qrPreviews) && showPreview == old(showPreview)
      ensures summary.None? <==> old(isCancelled)
      ensures summary.None? ==> isGenerating == old(isGenerating)
      ensures summary.Some? ==>
        !isGenerating &&
        summary.value == Summary(generatedCount, totalCount, |Repeats(codes)|, CountBlank(codes))
    {
      if isCancelled {
        return None;
      }
      var duplicates := FindDuplicates(codes);
      summary := Some(Summary(generatedCount, totalCount, |duplicates|, CountBlank(codes)));
      ResetGeneration();
    }

    /** `cancelGeneration`: raise the cancel flag and stop running. */
    method CancelGeneration()
      requires Valid()
      modifies this
      ensures Valid()
      ensures isCancelled && !isGenerating
      ensures codes == old(codes) && zip == old(zip) && generatedCount == old(generatedCount) &&
        totalCount == old(totalCount) && qrPreviews == old(qrPreviews) && showPreview == old(showPreview)
    {
      isCancelled := true;
      ResetGeneration();
    }

    /** `resetGeneration`: only the running flag changes. */
    method ResetGeneration()
      requires Valid()
      modifies this
      ensures Valid()
      ensures !isGenerating
      ensures codes == old(codes) && zip == old(zip) && isCancelled == old(isCancelled) &&
        generatedCount == old(generatedCount) && totalCount == old(totalCount) &&
        qrPreviews == old(qrPreviews) && showPreview == old(showPreview)
    {
      isGenerating := false;
    }

    /** `clearAll`: drop the codes, the archive, the counters and the previews; the flags stay. */
    method ClearAll()
      requires Valid()
      modifies this
      ensures Valid()
      ensures codes == [] && zip.None? && generatedCount == 0 && totalCount == 0 &&
        qrPreviews == [] && !showPreview
      ensures isGenerating == old(isGenerating) && isCancelled == old(isCancelled)
    {
      codes := [];
      zip := None;
      generatedCount := 0;
      totalCount := 0;
      qrPreviews := [];
      showPreview := false;
    }

    /**
     * A whole run of `generateQRCodes`. Every task passes its cancel check
     * before the first one awaits its blob, so a cancel click (`cancelled`)
     * can only land after all checks; it then suppresses the results and
     * nothing else.
     */
    method GenerateQRCodes(text: string, pattern: string, render: string -> Rendering, cancelled: bool)
      returns (outcome: BatchOutcome, progress: seq<int>)
      requires Valid()
      modifies this
      ensures Valid()
      ensures outcome.InputRejected? <==> AllWhitespace(text)
      ensures outcome.InputRejected? ==>
        outcome.error == EmptyText && !isGenerating && progress == [] &&
        codes == old(codes) && zip == old(zip) && qrPreviews == old(qrPreviews) &&
        generatedCount == old(generatedCount) && totalCount == old(totalCount) &&
        isCancelled == old(isCancelled) && showPreview == old(showPreview)
      ensures !outcome.InputRejected? ==>
        codes == TrimmedLines(text) && totalCount == |codes| && !isGenerating &&
        isCancelled == cancelled && !showPreview &&
        zip == Some(Archive(map[], codes, Namer(PolicyOf(pattern)), render)) &&
        qrPreviews == Previews([], codes, Namer(PolicyOf(pattern)), render) &&
        generatedCount == |qrPreviews| <= totalCount &&
        outcome == if cancelled then Cancelled else Completed(Summary(generatedCount, totalCount, |Repeats(codes)|, 0))
      ensures !outcome.InputRejected? ==>
        totalCount > 0 && progress == Shown(0, generatedCount, totalCount) &&
        (forall k :: 0 <= k < |progress| ==> 0 <= progress[k] <= 100) &&
        (generatedCount == totalCount ==> progress[|progress| - 1] == 100)
    {
      var error := StartGeneration(text);
      if error.Some? {
        return InputRejected(error.value), [];
      }
      progress := ProcessAllCodes(pattern, render);
      ShownRange(generatedCount, totalCount);
      if cancelled {
        CancelGeneration();
      }
      var summary := FinishGeneration();
      if summary.None? {
        return Cancelled, progress;
      }
      var r := GetCodesFromInput(text);
      BlankCountOfTrimmed(r.value);
      outcome := Completed(summary.value);
    }
  }
}
