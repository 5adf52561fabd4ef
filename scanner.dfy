/**
 * `scan_repo`: walk the checkout, and for every file that passes the
 * eligibility checks count the occurrences of `old` in its raw bytes and,
 * when license conversion is on and the upper-cased bytes mention
 * `LICENSE` or `LICENCE`, the blob and raw license links in its decoded
 * text.  Files with at least one hit are recorded under their path.
 */
module Scanner {
  import opened Wrappers
  import opened Text
  import opened Encoding
  import opened Repository
  import opened Classifier
  import LicenseLinks

  /** The three numbers `scan_repo` records for a file. */
  datatype Counts = Counts(oldHits: nat, licenseBlob: nat, licenseRaw: nat)

  predicate AnyHit(c: Counts) {
    c.oldHits > 0 || c.licenseBlob > 0 || c.licenseRaw > 0
  }

  /** `bytes.upper()`: only the ASCII letters `a`-`z` change. */
  function UpperBytes(bs: seq<byte>): (r: seq<byte>)
    ensures |r| == |bs|
    ensures forall i | 0 <= i < |bs| :: r[i] == (if 0x61 <= bs[i] <= 0x7A then bs[i] - 0x20 else bs[i])
  {
    seq(|bs|, i requires 0 <= i < |bs| => if 0x61 <= bs[i] <= 0x7A then bs[i] - 0x20 else bs[i])
  }

  /** `b"LICENSE"`. */
  const LicenseBytes: seq<byte> := [0x4C, 0x49, 0x43, 0x45, 0x4E, 0x53, 0x45]
  /** `b"LICENCE"`. */
  const LicenceBytes: seq<byte> := [0x4C, 0x49, 0x43, 0x45, 0x4E, 0x43, 0x45]

  /** The quick test that decides whether license links are worth counting. */
  predicate LicenseHint(data: seq<byte>) {
    Contains(UpperBytes(data), LicenseBytes) || Contains(UpperBytes(data), LicenceBytes)
  }

  /** `data.count(old_bytes) if old_bytes in data else 0`, with `old_bytes` the UTF-8 of `old`. */
  function OldHits(data: seq<byte>, oldUrl: string): (n: nat)
    ensures n == Count(data, Utf8Encode(oldUrl))
  {
    var ob := Utf8Encode(oldUrl);
    CountZeroIff(data, ob);
    if Contains(data, ob) then Count(data, ob) else 0
  }

  /** What `scan_repo` records for one file of the walk, if anything. */
  function ScanFile(e: FileEntry, oldUrl: string, repoName: string, convert: bool): (r: Option<Counts>)
    ensures r.Some? ==> Walked(e) && Eligible(e) && e.data.Some? && AnyHit(r.value)
    ensures r.Some? ==> r.value.oldHits == Count(e.data.value, Utf8Encode(oldUrl))
    ensures r.Some? && !convert ==> r.value.licenseBlob == 0 && r.value.licenseRaw == 0
    ensures r.Some? && convert ==>
              (ReadTextWithFallback(e.data).Some? &&
               r.value.licenseBlob == LicenseLinks.FindAllCount(ReadTextWithFallback(e.data).value.text, LicenseLinks.Blob, repoName) &&
               r.value.licenseRaw == LicenseLinks.FindAllCount(ReadTextWithFallback(e.data).value.text, LicenseLinks.Raw, repoName))
    ensures Walked(e) && Eligible(e) && e.data.Some? && Count(e.data.value, Utf8Encode(oldUrl)) > 0 ==> r.Some?
    ensures (Walked(e) && Eligible(e) && e.data.Some? && convert && LicenseHint(e.data.value) &&
             (LicenseLinks.FindAllCount(ReadTextWithFallback(e.data).value.text, LicenseLinks.Blob, repoName) > 0 ||
              LicenseLinks.FindAllCount(ReadTextWithFallback(e.data).value.text, LicenseLinks.Raw, repoName) > 0))
            ==> r.Some?
  {
    if !Walked(e) || !Eligible(e) || e.data.None? then None
    else
      var oldHits := OldHits(e.data.value, oldUrl);
      if oldHits == 0 && !(convert && LicenseHint(e.data.value)) then None
      else match ReadTextWithFallback(e.data)
        case None => None
        case Some(decoded) =>
          var blob := if convert then LicenseLinks.FindAllCount(decoded.text, LicenseLinks.Blob, repoName) else 0;
          var raw := if convert then LicenseLinks.FindAllCount(decoded.text, LicenseLinks.Raw, repoName) else 0;
          var c := Counts(oldHits, blob, raw);
          if AnyHit(c) then Some(c) else None
  }

  /**
   * The map a walk builds from each visited path and what was recorded
   * for it, in order; a later record for the same path wins.
   */
  function Collect(paths: seq<string>, rs: seq<Option<Counts>>): map<string, Counts>
    requires |paths| == |rs|
    decreases |rs|
  {
    if |rs| == 0 then map[]
    else
      var n := |rs| - 1;
      var before := Collect(paths[..n], rs[..n]);
      match rs[n]
      case None => before
      case Some(c) => before[paths[n] := c]
  }

  /** A path is collected exactly when some record for it exists, and it maps to one of them. */
  lemma {:induction false} CollectResult(paths: seq<string>, rs: seq<Option<Counts>>, p: string)
    requires |paths| == |rs|
    ensures p in Collect(paths, rs) <==> exists k | 0 <= k < |rs| :: paths[k] == p && rs[k].Some?
    ensures p in Collect(paths, rs) ==>
      exists k | 0 <= k < |rs| :: paths[k] == p && rs[k] == Some(Collect(paths, rs)[p])
    decreases |rs|
  {
    if |rs| > 0 {
      var n := |rs| - 1;
      CollectResult(paths[..n], rs[..n], p);
      forall k | 0 <= k < n ensures paths[..n][k] == paths[k] && rs[..n][k] == rs[k] {}
    }
  }

  function Paths(files: seq<FileEntry>): (ps: seq<string>)
    ensures |ps| == |files| && forall k | 0 <= k < |files| :: ps[k] == PathOf(files[k])
  {
    seq(|files|, k requires 0 <= k < |files| => PathOf(files[k]))
  }

  function Records(files: seq<FileEntry>, oldUrl: string, repoName: string, convert: bool): (rs: seq<Option<Counts>>)
    ensures |rs| == |files| && forall k | 0 <= k < |files| :: rs[k] == ScanFile(files[k], oldUrl, repoName, convert)
  {
    seq(|files|, k requires 0 <= k < |files| => ScanFile(files[k], oldUrl, repoName, convert))
  }

  /** The result map after the walk has visited `files`, in order. */
  function ScanSpec(files: seq<FileEntry>, oldUrl: string, repoName: string, convert: bool): map<string, Counts>
  {
    Collect(Paths(files), Records(files, oldUrl, repoName, convert))
  }

  /**
   * `scan_repo`: one pass over the walk, filling the result map.  The
   * method has no `modifies` clause: the scan never changes the checkout.
   */
  method ScanRepo(checkout: Checkout, oldUrl: string, repoName: string, convert: bool)
    returns (results: map<string, Counts>)
    ensures results == ScanSpec(checkout.files, oldUrl, repoName, convert)
  {
    var files := checkout.files;
    var oldBytes := Utf8Encode(oldUrl);
    results := map[];
    var i := 0;
    while i < |files|
      invariant 0 <= i <= |files|
      invariant results == ScanSpec(files[..i], oldUrl, repoName, convert)
    {
      var e := files[i];
      var recorded := ScanOne(e, oldUrl, oldBytes, repoName, convert);
      ScanSpecStep(files, i, oldUrl, repoName, convert, results, recorded);
      if recorded.Some? {
        results := results[PathOf(e) := recorded.value];
      }
      i := i + 1;
    }
    assert files[..i] == files;
  }

  /** One more file of the walk: its record, if any, goes into the map under its path. */
  lemma ScanSpecStep(files: seq<FileEntry>, i: nat, oldUrl: string, repoName: string, convert: bool,
                     before: map<string, Counts>, recorded: Option<Counts>)
    requires i < |files|
    requires before == ScanSpec(files[..i], oldUrl, repoName, convert)
    requires recorded == ScanFile(files[i], oldUrl, repoName, convert)
    ensures ScanSpec(files[..i + 1], oldUrl, repoName, convert) ==
      if recorded.Some? then before[PathOf(files[i]) := recorded.value] else before
  {
    var ps, rs := Paths(files[..i + 1]), Records(files[..i + 1], oldUrl, repoName, convert);
    assert ps[..i] == Paths(files[..i]);
    assert rs[..i] == Records(files[..i], oldUrl, repoName, convert);
  }

  /** The body of the walk for one file, step by step as the source takes them. */
  method ScanOne(e: FileEntry, oldUrl: string, oldBytes: seq<byte>, repoName: string, convert: bool)
    returns (recorded: Option<Counts>)
    requires oldBytes == Utf8Encode(oldUrl)
    ensures recorded == ScanFile(e, oldUrl, repoName, convert)
  {
    recorded := None;
    if !Walked(e) || !Eligible(e) || e.data.None? {
      return;
    }
    var data := e.data.value;
    var oldHits := if Contains(data, oldBytes) then Count(data, oldBytes) else 0;
    var needText := oldHits > 0;
    if convert && LicenseHint(data) {
      needText := true;
    }
    if !needText {
      return;
    }
    var decoded := ReadTextWithFallback(e.data);
    if decoded.None? {
      return;
    }
    var blob, raw := 0, 0;
    if convert {
      blob := LicenseLinks.FindAllCount(decoded.value.text, LicenseLinks.Blob, repoName);
      raw := LicenseLinks.FindAllCount(decoded.value.text, LicenseLinks.Raw, repoName);
    }
    if oldHits == 0 && blob == 0 && raw == 0 {
      return;
    }
    recorded := Some(Counts(oldHits, blob, raw));
  }

  /**
   * A path is in the result exactly when some file of the walk with that
   * path has a hit, and what it maps to is what one such file recorded:
   * only walked, eligible files with at least one positive count appear.
   */
  lemma ScanResult(files: seq<FileEntry>, oldUrl: string, repoName: string, convert: bool, p: string)
    ensures p in ScanSpec(files, oldUrl, repoName, convert) <==>
      exists k | 0 <= k < |files| :: PathOf(files[k]) == p && ScanFile(files[k], oldUrl, repoName, convert).Some?
    ensures p in ScanSpec(files, oldUrl, repoName, convert) ==>
      exists k | 0 <= k < |files| :: PathOf(files[k]) == p &&
        ScanFile(files[k], oldUrl, repoName, convert) == Some(ScanSpec(files, oldUrl, repoName, convert)[p])
  {
    CollectResult(Paths(files), Records(files, oldUrl, repoName, convert), p);
  }

  /**
   * What a recorded path maps to, read back from the walk: some walked,
   * eligible, readable file with that path, its byte count of `old`, and,
   * with conversion on, the blob and raw link counts of its decoded text.
   */
  lemma ScanCounts(files: seq<FileEntry>, oldUrl: string, repoName: string, convert: bool, p: string)
    requires p in ScanSpec(files, oldUrl, repoName, convert)
    ensures exists k | 0 <= k < |files| ::
              (PathOf(files[k]) == p && Walked(files[k]) && Eligible(files[k]) &&
               files[k].data.Some? && AnyHit(ScanSpec(files, oldUrl, repoName, convert)[p]) &&
               ScanSpec(files, oldUrl, repoName, convert)[p].oldHits == Count(files[k].data.value, Utf8Encode(oldUrl)) &&
               (convert ==>
                  ScanSpec(files, oldUrl, repoName, convert)[p].licenseBlob ==
                    LicenseLinks.FindAllCount(ReadTextWithFallback(files[k].data).value.text, LicenseLinks.Blob, repoName) &&
                  ScanSpec(files, oldUrl, repoName, convert)[p].licenseRaw ==
                    LicenseLinks.FindAllCount(ReadTextWithFallback(files[k].data).value.text, LicenseLinks.Raw, repoName)))
  {
    ScanResult(files, oldUrl, repoName, convert, p);
  }

  /** Every walked, eligible, readable file that contains `old` has its path in the result. */
  lemma OldHitRecorded(files: seq<FileEntry>, oldUrl: string, repoName: string, convert: bool, k: nat)
    requires k < |files| && Walked(files[k]) && Eligible(files[k]) && files[k].data.Some?
    requires Count(files[k].data.value, Utf8Encode(oldUrl)) > 0
    ensures PathOf(files[k]) in ScanSpec(files, oldUrl, repoName, convert)
  {
    ScanResult(files, oldUrl, repoName, convert, PathOf(files[k]));
  }

  /** With license conversion off, nothing in the result counts a license link. */
  lemma ScanWithoutConvert(files: seq<FileEntry>, oldUrl: string, repoName: string, p: string)
    requires p in ScanSpec(files, oldUrl, repoName, false)
    ensures ScanSpec(files, oldUrl, repoName, false)[p].licenseBlob == 0
    ensures ScanSpec(files, oldUrl, repoName, false)[p].licenseRaw == 0
  {
    ScanResult(files, oldUrl, repoName, false, p);
  }
}
