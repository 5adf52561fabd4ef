/**
 * `replace_old_urls` and `apply_replacements`: walk the checkout again,
 * decode every eligible file, replace the old org URL, convert the license
 * links, write the file back in the codec it was read with when its text
 * changed, and report the files written together with three totals.
 */
module Rewriter {
  import opened Wrappers
  import opened Text
  import opened Encoding
  import opened Repository
  import opened Classifier
  import LicenseLinks

  /**
   * `replace_old_urls`: the text with every leftmost, non-overlapping
   * occurrence of `oldUrl` replaced by `newUrl`, and how many there were.
   */
  function ReplaceOldUrls(text: string, oldUrl: string, newUrl: string): (r: (string, nat))
    ensures r.1 == |Pieces(text, oldUrl)| - 1
    ensures r.0 == Join(Pieces(text, oldUrl), newUrl)
    ensures r.1 == 0 ==> r.0 == text
  {
    var count := Count(text, oldUrl);
    ReplaceAllIsJoin(text, oldUrl, newUrl);
    if count > 0 then (ReplaceAll(text, oldUrl, newUrl), count) else (text, count)
  }

  /**
   * An empty `oldUrl` occurs before every character and at the end, so
   * `replace_old_urls` counts one more occurrence than the text has
   * characters and inserts `newUrl` at each of them.
   */
  lemma EmptyOldUrl(text: string, newUrl: string)
    ensures ReplaceOldUrls(text, "", newUrl).1 == |text| + 1
    ensures |ReplaceOldUrls(text, "", newUrl).0| == |text| + (|text| + 1) * |newUrl|
  {
    ReplaceAllLength(text, "", newUrl);
  }

  /** What `apply_replacements` counts for one file. */
  datatype Counts = Counts(oldCount: nat, blobCount: nat, rawCount: nat)

  predicate AnyCount(c: Counts) {
    c.oldCount > 0 || c.blobCount > 0 || c.rawCount > 0
  }

  /**
   * The text transformation of one file: the URL replacement (only when
   * `oldUrl` occurs), then, when enabled, the license-link conversion.
   * The text can only change when something was counted.
   */
  function Transform(text: string, oldUrl: string, newUrl: string, repoName: string, doLicense: bool): (r: (string, Counts))
    ensures r.0 != text ==> AnyCount(r.1)
    ensures !doLicense ==> r.1.blobCount == 0 && r.1.rawCount == 0
  {
    var replaced := if Contains(text, oldUrl) then ReplaceOldUrls(text, oldUrl, newUrl) else (text, 0);
    if doLicense then
      var c := LicenseLinks.ConvertLicenseLinks(replaced.0, repoName);
      LicenseLinks.ConvertNothingUnchanged(replaced.0, repoName);
      (c.text, Counts(replaced.1, c.blobCount, c.rawCount))
    else
      (replaced.0, Counts(replaced.1, 0, 0))
  }

  /** An entry of `per_file`. */
  datatype FileChange = FileChange(path: string, counts: Counts)

  /** One file's fate: the entry afterwards, whether it was written, and what `per_file` gains. */
  datatype Step = Step(entry: FileEntry, written: bool, change: Option<FileChange>)

  /** The file after a successful write of `bytes`. */
  function Rewritten(e: FileEntry, bytes: seq<byte>): FileEntry {
    e.(data := Some(bytes), size := Some(|bytes|))
  }

  /**
   * What `apply_replacements` does to one file.  A write is attempted only
   * when the text changed; it fails when the file cannot be opened for
   * writing or the new text cannot be encoded in the file's codec (a
   * latin-1 file that gained a character above U+00FF), and then the file
   * is skipped and left as it was.
   */
  function ApplyFile(e: FileEntry, oldUrl: string, newUrl: string, repoName: string, doLicense: bool): (r: Step)
  {
    if !Walked(e) || !Eligible(e) then Step(e, false, None)
    else match ReadTextWithFallback(e.data)
      case None => Step(e, false, None)
      case Some(decoded) =>
        var t := Transform(decoded.text, oldUrl, newUrl, repoName, doLicense);
        if t.0 == decoded.text || e.writeFails then Step(e, false, None)
        else match EncodeText(t.0, decoded.codec)
          case None => Step(e, false, None)
          case Some(bytes) =>
            Step(Rewritten(e, bytes), true, if AnyCount(t.1) then Some(FileChange(PathOf(e), t.1)) else None)
  }

  /**
   * `apply_replacements` as written: `Path.write_text` opens the file with
   * mode `"w"`, which empties it, before encoding the text, so a failed
   * latin-1 encoding leaves an empty file behind.
   */
  function ApplyFileAsWritten(e: FileEntry, oldUrl: string, newUrl: string, repoName: string, doLicense: bool): (r: Step)
  {
    if !Walked(e) || !Eligible(e) then Step(e, false, None)
    else match ReadTextWithFallback(e.data)
      case None => Step(e, false, None)
      case Some(decoded) =>
        var t := Transform(decoded.text, oldUrl, newUrl, repoName, doLicense);
        if t.0 == decoded.text || e.writeFails then Step(e, false, None)
        else match EncodeText(t.0, decoded.codec)
          case None => Step(Rewritten(e, []), false, None)
          case Some(bytes) =>
            Step(Rewritten(e, bytes), true, if AnyCount(t.1) then Some(FileChange(PathOf(e), t.1)) else None)
  }

  /** The per-file body of `apply_replacements`, step by step as the source takes them. */
  method ApplyOne(e: FileEntry, oldUrl: string, newUrl: string, repoName: string, doLicense: bool)
    returns (step: Step)
    ensures step == ApplyFile(e, oldUrl, newUrl, repoName, doLicense)
    ensures !step.written ==> step.entry == e
  {
    step := Step(e, false, None);
    if !Walked(e) || !Eligible(e) {
      return;
    }
    var decoded := ReadTextWithFallback(e.data);
    if decoded.None? {
      return;
    }
    var text := decoded.value.text;
    var orig := text;
    var oldCount, blobCount, rawCount := 0, 0, 0;
    if Contains(text, oldUrl) {
      var replaced := ReplaceOldUrls(text, oldUrl, newUrl);
      text, oldCount := replaced.0, replaced.1;
    }
    if doLicense {
      var converted := LicenseLinks.ConvertLicenseLinks(text, repoName);
      text, blobCount, rawCount := converted.text, converted.blobCount, converted.rawCount;
    }
    assert (text, Counts(oldCount, blobCount, rawCount)) == Transform(orig, oldUrl, newUrl, repoName, doLicense);
    if text != orig && !e.writeFails {
      var bytes := EncodeText(text, decoded.value.codec);
      if bytes.Some? {
        step := Step(Rewritten(e, bytes.value), true, None);
        if oldCount > 0 || blobCount > 0 || rawCount > 0 {
          step := step.(change := Some(FileChange(PathOf(e), Counts(oldCount, blobCount, rawCount))));
        }
      }
    }
  }

  /** What happens to each file of the walk. */
  function Steps(files: seq<FileEntry>, oldUrl: string, newUrl: string, repoName: string, doLicense: bool): (steps: seq<Step>)
    ensures |steps| == |files|
    ensures forall k | 0 <= k < |files| :: steps[k] == ApplyFile(files[k], oldUrl, newUrl, repoName, doLicense)
  {
    seq(|files|, k requires 0 <= k < |files| => ApplyFile(files[k], oldUrl, newUrl, repoName, doLicense))
  }

  /** The `per_file` entries a sequence of steps produces, in order. */
  function Gather(steps: seq<Step>): seq<FileChange>
    decreases |steps|
  {
    if |steps| == 0 then []
    else
      var n := |steps| - 1;
      match steps[n].change
      case None => Gather(steps[..n])
      case Some(c) => Gather(steps[..n]) + [c]
  }

  /** `per_file` after the walk has visited `files`. */
  function PerFile(files: seq<FileEntry>, oldUrl: string, newUrl: string, repoName: string, doLicense: bool): seq<FileChange>
  {
    Gather(Steps(files, oldUrl, newUrl, repoName, doLicense))
  }

  /** The three column sums of a `per_file` list. */
  function Total(fs: seq<FileChange>): Counts
    decreases |fs|
  {
    if |fs| == 0 then Counts(0, 0, 0)
    else
      var before, c := Total(fs[..|fs| - 1]), fs[|fs| - 1].counts;
      Counts(before.oldCount + c.oldCount, before.blobCount + c.blobCount, before.rawCount + c.rawCount)
  }

  /**
   * `apply_replacements`: rewrites the checkout's files in place and
   * returns `per_file` and its three column sums.  Every file ends up as
   * `ApplyFile` says, independently of the others.
   */
  method ApplyReplacements(checkout: Checkout, oldUrl: string, newUrl: string, repoName: string, doLicense: bool)
    returns (perFile: seq<FileChange>, oldTotal: nat, blobTotal: nat, rawTotal: nat)
    modifies checkout
    ensures |checkout.files| == |old(checkout.files)|
    ensures forall k | 0 <= k < |checkout.files| ::
      checkout.files[k] == ApplyFile(old(checkout.files)[k], oldUrl, newUrl, repoName, doLicense).entry
    ensures perFile == PerFile(old(checkout.files), oldUrl, newUrl, repoName, doLicense)
    ensures Counts(oldTotal, blobTotal, rawTotal) == Total(perFile)
  {
    ghost var orig := checkout.files;
    ghost var steps := Steps(orig, oldUrl, newUrl, repoName, doLicense);
    perFile := [];
    oldTotal, blobTotal, rawTotal := 0, 0, 0;
    var i := 0;
    while i < |checkout.files|
      invariant 0 <= i <= |orig|
      invariant checkout.files == Entries(orig, steps, i)
      invariant perFile == Gather(steps[..i])
      invariant Counts(oldTotal, blobTotal, rawTotal) == Total(perFile)
    {
      var step := StepAt(checkout.files[i], oldUrl, newUrl, repoName, doLicense, orig, steps, i);
      perFile, oldTotal, blobTotal, rawTotal := VisitFile(checkout, i, step, orig, steps, perFile, oldTotal, blobTotal, rawTotal);
      i := i + 1;
    }
    assert steps[..i] == steps;
  }

  /** Works out what happens to file `i` of the walk. */
  method StepAt(e: FileEntry, oldUrl: string, newUrl: string, repoName: string, doLicense: bool,
                ghost orig: seq<FileEntry>, ghost steps: seq<Step>, i: nat)
    returns (step: Step)
    requires steps == Steps(orig, oldUrl, newUrl, repoName, doLicense) && i < |orig| && e == orig[i]
    ensures step == steps[i]
    ensures !step.written ==> step.entry == orig[i]
  {
    step := ApplyOne(e, oldUrl, newUrl, repoName, doLicense);
  }

  /** One turn of the walk in `apply_replacements`: file `i` takes its step and is recorded. */
  method VisitFile(checkout: Checkout, i: nat, step: Step, ghost orig: seq<FileEntry>, ghost steps: seq<Step>,
                   perFile: seq<FileChange>, oldTotal: nat, blobTotal: nat, rawTotal: nat)
    returns (perFile': seq<FileChange>, oldTotal': nat, blobTotal': nat, rawTotal': nat)
    requires |steps| == |orig| && i < |orig| && step == steps[i]
    requires !step.written ==> step.entry == orig[i]
    requires checkout.files == Entries(orig, steps, i)
    requires perFile == Gather(steps[..i]) && Counts(oldTotal, blobTotal, rawTotal) == Total(perFile)
    modifies checkout
    ensures checkout.files == Entries(orig, steps, i + 1)
    ensures perFile' == Gather(steps[..i + 1]) && Counts(oldTotal', blobTotal', rawTotal') == Total(perFile')
  {
    GatherStep(steps, i);
    EntriesStep(orig, steps, i);
    if step.written {
      checkout.files := checkout.files[i := step.entry];
    }
    perFile', oldTotal', blobTotal', rawTotal' := perFile, oldTotal, blobTotal, rawTotal;
    if step.change.Some? {
      var c := step.change.value;
      TotalStep(perFile, c);
      perFile' := perFile + [c];
      oldTotal', blobTotal', rawTotal' := oldTotal + c.counts.oldCount, blobTotal + c.counts.blobCount, rawTotal + c.counts.rawCount;
    }
  }

  /** The files once the first `i` steps have been taken. */
  function Entries(files: seq<FileEntry>, steps: seq<Step>, i: nat): (r: seq<FileEntry>)
    requires |steps| == |files| && i <= |files|
    ensures |r| == |files|
    ensures forall k | 0 <= k < |files| :: r[k] == if k < i then steps[k].entry else files[k]
  {
    seq(|files|, k requires 0 <= k < |files| => if k < i then steps[k].entry else files[k])
  }

  /** Taking step `i` writes its entry, or leaves the files alone when nothing is written. */
  lemma EntriesStep(files: seq<FileEntry>, steps: seq<Step>, i: nat)
    requires |steps| == |files| && i < |files|
    requires !steps[i].written ==> steps[i].entry == files[i]
    ensures Entries(files, steps, i + 1) ==
      if steps[i].written then Entries(files, steps, i)[i := steps[i].entry] else Entries(files, steps, i)
  {
  }

  lemma GatherStep(steps: seq<Step>, i: nat)
    requires i < |steps|
    ensures Gather(steps[..i + 1]) ==
      if steps[i].change.Some? then Gather(steps[..i]) + [steps[i].change.value] else Gather(steps[..i])
  {
    assert steps[..i + 1][..i] == steps[..i];
  }

  lemma TotalStep(fs: seq<FileChange>, c: FileChange)
    ensures Total(fs + [c]) == Counts(Total(fs).oldCount + c.counts.oldCount,
      Total(fs).blobCount + c.counts.blobCount, Total(fs).rawCount + c.counts.rawCount)
  {
    assert (fs + [c])[..|fs|] == fs;
  }

  /**
   * A file is reported in `per_file` exactly when it was written: a write
   * only happens when the text changed, and a changed text always has a
   * positive count, so the source's check of the counts never drops a
   * written file.
   */
  lemma WrittenIffReported(e: FileEntry, oldUrl: string, newUrl: string, repoName: string, doLicense: bool)
    ensures ApplyFile(e, oldUrl, newUrl, repoName, doLicense).change.Some? <==>
      ApplyFile(e, oldUrl, newUrl, repoName, doLicense).written
  {
  }

  /** A file that is not written stays exactly as it was: a failed write skips only that file. */
  lemma UnwrittenUntouched(e: FileEntry, oldUrl: string, newUrl: string, repoName: string, doLicense: bool)
    ensures !ApplyFile(e, oldUrl, newUrl, repoName, doLicense).written ==>
      ApplyFile(e, oldUrl, newUrl, repoName, doLicense).entry == e
  {
  }

  /**
   * A file is written exactly when it is walked and eligible, decodes, its
   * text changes, it can be opened for writing and the new text encodes in
   * the codec it was read with; what is written is that encoding.
   */
  lemma WrittenIff(e: FileEntry, oldUrl: string, newUrl: string, repoName: string, doLicense: bool)
    ensures ApplyFile(e, oldUrl, newUrl, repoName, doLicense).written <==>
      && Walked(e) && Eligible(e) && !e.writeFails
      && ReadTextWithFallback(e.data).Some?
      && var d := ReadTextWithFallback(e.data).value;
         var t := Transform(d.text, oldUrl, newUrl, repoName, doLicense);
         t.0 != d.text && EncodeText(t.0, d.codec).Some?
    ensures ApplyFile(e, oldUrl, newUrl, repoName, doLicense).written ==>
      var d := ReadTextWithFallback(e.data).value;
      var t := Transform(d.text, oldUrl, newUrl, repoName, doLicense);
      ApplyFile(e, oldUrl, newUrl, repoName, doLicense).entry.data == EncodeText(t.0, d.codec) &&
      ApplyFile(e, oldUrl, newUrl, repoName, doLicense).change == Some(FileChange(PathOf(e), t.1))
  {
  }

  /**
   * The source as written differs from `ApplyFile` only where the new
   * text cannot be encoded: there the file is left empty instead of
   * untouched.
   */
  lemma AsWrittenDiffers(e: FileEntry, oldUrl: string, newUrl: string, repoName: string, doLicense: bool)
    ensures var w := ApplyFileAsWritten(e, oldUrl, newUrl, repoName, doLicense);
      w != ApplyFile(e, oldUrl, newUrl, repoName, doLicense) ==> w.entry.data == Some([]) && !w.written
  {
  }

  /** A latin-1 file `éa` (bytes E9 61, not UTF-8), with `a` replaced by `Ā` (U+0100). */
  const Latin1Example: FileEntry := FileEntry([], "a.md", Some(2), Some([0xE9, 0x61]), false)

  /** The source empties that file; the intended behaviour leaves it as it was. */
  lemma TruncationExample()
    ensures ApplyFileAsWritten(Latin1Example, "a", "\U{100}", "R", false).entry.data == Some([])
    ensures ApplyFile(Latin1Example, "a", "\U{100}", "R", false).entry == Latin1Example
  {
    ExampleDecodes();
    ExampleTransforms();
    assert Latin1Encode("\U{E9}\U{100}").None? by { assert "\U{E9}\U{100}"[1] as int == 0x100; }
  }

  lemma ExampleDecodes()
    ensures Walked(Latin1Example) && Eligible(Latin1Example)
    ensures ReadTextWithFallback(Latin1Example.data) == Some(Decoded("\U{E9}a", Latin1))
  {
    assert Suffix("a.md") == ".md" by { assert LastDot("a.md", 4) == 1; }
    assert ".md" in ProseExts;
    var bs: seq<byte> := [0xE9, 0x61];
    assert LeadLength(bs) == 0;
    assert Latin1Decode(bs) == "\U{E9}a";
    assert TranslateNewlines("\U{E9}a") == "\U{E9}a" by {
      assert '\r' !in "\U{E9}a";
      TranslateNewlinesIdentity("\U{E9}a");
    }
  }

  lemma ExampleTransforms()
    ensures Transform("\U{E9}a", "a", "\U{100}", "R", false) == ("\U{E9}\U{100}", Counts(1, 0, 0))
  {
    var t: string := "\U{E9}a";
    assert OccursAt(t, "a", 1);
    assert Count(t, "a") == 1 by {
      assert t[..1][0] != "a"[0];
      assert t[1..][..1] == "a";
    }
    assert ReplaceAll(t, "a", "\U{100}") == "\U{E9}\U{100}" by {
      assert t[1..] == "a";
      assert ReplaceAll("a", "a", "\U{100}") == "\U{100}" + ReplaceAll("", "a", "\U{100}");
    }
  }
}
