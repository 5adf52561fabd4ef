/**
 * Which files the walkers look at: the 5 MiB cap, `Path.suffix`,
 * `TEXT_LIKE_EXTS` (compared as written) and `is_probably_text_file`
 * (`BINARY_EXTS` compared lower-cased, then a NUL byte in the first 4096
 * bytes).
 */
module Classifier {
  import opened Wrappers
  import opened Text
  import opened Encoding
  import opened Repository

  /** `BINARY_EXTS`. */
  const BinaryExts: set<string> := {
    ".png", ".jpg", ".jpeg", ".gif", ".bmp", ".webp",
    ".pdf", ".zip", ".tar", ".gz", ".tgz", ".7z", ".rar",
    ".woff", ".woff2", ".ttf", ".otf", ".ico",
    ".mp4", ".mp3", ".avi", ".mov", ".mkv",
    ".exe", ".dll", ".so", ".dylib", ".bin",
    ".class", ".o", ".a", ".lib", ".obj",
    ".pkl", ".pt", ".onnx", ".pb"
  }

  /**
   * `TEXT_LIKE_EXTS`, assembled from groups of at most a few dozen entries
   * so that the verifier can enumerate each group.
   */
  const TextLikeExts: set<string> := ProseExts + CodeExts + ConfigExts + MarkupExts + ToolingExts

  const ProseExts: set<string> := {".md", ".markdown", ".txt", ".rst", ".csv", ".tsv"}

  const CodeExts: set<string> := {
    ".py", ".js", ".ts", ".tsx", ".jsx", ".mjs", ".cjs",
    ".java", ".go", ".rb", ".rs", ".cpp", ".cxx", ".cc", ".c", ".h", ".hpp",
    ".cs", ".kt", ".swift",
    ".sh", ".bash", ".zsh", ".ps1", ".bat", ".cmd"
  }

  const ConfigExts: set<string> := {
    ".yml", ".yaml", ".json", ".toml", ".ini", ".cfg", ".conf",
    ".tf", ".tfvars", ".gradle", ".properties"
  }

  const MarkupExts: set<string> := {".xml", ".html", ".htm", ".css", ".scss", ".less"}

  const ToolingExts: set<string> := {".Dockerfile", ".dockerignore", ".gitignore", ".gitattributes"}

  /** Files larger than this many bytes are skipped by both walkers. */
  const MaxFileSize: nat := 5 * 1024 * 1024
  /** How many leading bytes `is_probably_text_file` inspects. */
  const SniffWindow: nat := 4096

  /** The index of the last `.` in `name[..k]`, or -1 (`str.rfind`). */
  function LastDot(name: string, k: nat): (r: int)
    requires k <= |name|
    ensures -1 <= r < k && (r >= 0 ==> name[r] == '.')
    ensures forall j | r < j < k :: name[j] != '.'
  {
    if k == 0 then -1 else if name[k - 1] == '.' then k - 1 else LastDot(name, k - 1)
  }

  /**
   * `Path.suffix`: from the last `.` on, unless that dot is the first or
   * the last character of the name (or there is none).
   */
  function Suffix(name: string): (r: string)
    ensures r != [] ==> 2 <= |r| < |name| && r[0] == '.' && r == name[|name| - |r|..]
    ensures r != [] ==> forall j | 0 < j < |r| :: r[j] != '.'
  {
    var i := LastDot(name, |name|);
    if 0 < i < |name| - 1 then name[i..] else ""
  }

  /** The first `SniffWindow` bytes (`f.read(4096)`). */
  function Window(bs: seq<byte>): (w: seq<byte>)
    ensures |w| <= SniffWindow && |w| <= |bs| && w == bs[..|w|]
    ensures |bs| <= SniffWindow ==> w == bs
  {
    if |bs| <= SniffWindow then bs else bs[..SniffWindow]
  }

  /**
   * `is_probably_text_file`: a binary suffix (compared lower-cased) rules
   * the file out, as does a read that raises or a NUL byte among the first
   * 4096 bytes.
   */
  function IsProbablyTextFile(name: string, data: Option<seq<byte>>): bool {
    if Lower(Suffix(name)) in BinaryExts then false
    else data.Some? && 0 !in Window(data.value)
  }

  /**
   * The checks both walkers make before reading a file: `stat` succeeds and
   * reports at most 5 MiB, and the suffix is text-like as written or the
   * file looks like text.
   */
  predicate Eligible(e: FileEntry) {
    && e.size.Some? && e.size.value <= MaxFileSize
    && (Suffix(e.name) in TextLikeExts || IsProbablyTextFile(e.name, e.data))
  }

  /** Oversized files, and files whose `stat` fails, are never looked at. */
  lemma OversizedSkipped(e: FileEntry)
    requires e.size.None? || e.size.value > MaxFileSize
    ensures !Eligible(e)
  {
  }

  /** A text-like suffix admits a file of allowed size without reading it. */
  lemma TextLikeNotSniffed(e: FileEntry, other: Option<seq<byte>>)
    requires Eligible(e) && Suffix(e.name) in TextLikeExts
    ensures Eligible(e.(data := other))
  {
  }

  /**
   * Any other file is admitted exactly when its lower-cased suffix is not
   * binary, it can be read, and its first 4096 bytes hold no NUL.
   */
  lemma SniffedIff(e: FileEntry)
    requires e.size.Some? && e.size.value <= MaxFileSize && Suffix(e.name) !in TextLikeExts
    ensures Eligible(e) <==>
      Lower(Suffix(e.name)) !in BinaryExts && e.data.Some? &&
      forall k | 0 <= k < |e.data.value| && k < SniffWindow :: e.data.value[k] != 0
  {
    if e.data.Some? {
      var w := Window(e.data.value);
      if 0 in w {
        var k :| 0 <= k < |w| && w[k] == 0;
        assert e.data.value[k] == 0;
      }
      forall k | 0 <= k < |e.data.value| && k < SniffWindow && 0 !in w ensures e.data.value[k] != 0 {
        assert w[k] == e.data.value[k];
      }
    }
  }

  /** Bytes past the first 4096 never change the verdict. */
  lemma SniffSeesOnlyWindow(name: string, bs: seq<byte>, tail: seq<byte>)
    requires |bs| >= SniffWindow
    ensures IsProbablyTextFile(name, Some(bs + tail)) == IsProbablyTextFile(name, Some(bs))
  {
    assert Window(bs + tail) == Window(bs);
  }

  /**
   * The text-like check is case-sensitive and the binary check is not: an
   * upper-case `.PNG` is not text-like but is binary ...
   */
  lemma UpperCaseBinarySuffix()
    ensures Suffix("LOGO.PNG") == ".PNG" && ".PNG" !in TextLikeExts && Lower(".PNG") in BinaryExts
  {
    PngSuffix();
    NotTextLike(".PNG");
    PngIsBinary();
  }

  lemma PngSuffix()
    ensures Suffix("LOGO.PNG") == ".PNG" && Lower(".PNG") == ".png"
  {
    assert LastDot("LOGO.PNG", 8) == 4;
  }

  lemma PngIsBinary()
    ensures ".png" in BinaryExts
  {
  }

  /** `str.lower()` turns the Kelvin sign into `k`, so `.p\U{212A}l` is the binary `.pkl`. */
  lemma KelvinSuffixIsBinary(bs: seq<byte>)
    ensures Lower(Suffix("model.p" + [Kelvin] + "l")) == ".pkl"
    ensures !IsProbablyTextFile("model.p" + [Kelvin] + "l", Some(bs))
  {
    var name := "model.p" + [Kelvin] + "l";
    assert |name| == 9 && name[5] == '.' && name[6] == 'p' && name[7] == Kelvin && name[8] == 'l';
    assert LastDot(name, 9) == 5;
    assert name[5..] == ".p" + [Kelvin] + "l";
  }

  /** ... and `.MD` is not text-like, so such a file is sniffed. */
  lemma UpperCaseTextSuffix()
    ensures Suffix("README.MD") == ".MD" && ".MD" !in TextLikeExts
  {
    assert LastDot("README.MD", 9) == 6;
    NotTextLike(".MD");
  }

  /** After its dot, every text-like suffix has a lower-case letter, or the `D` of `.Dockerfile`. */
  predicate LowerAfterDot(y: string) {
    |y| >= 2 && (IsAsciiLower(y[1]) || y[1] == 'D')
  }

  /** A suffix whose second character is an upper-case letter other than `D` is not text-like. */
  lemma NotTextLike(x: string)
    requires |x| >= 2 && IsAsciiUpper(x[1]) && x[1] != 'D'
    ensures x !in TextLikeExts
  {
    ProseLower();
    CodeLower();
    ConfigLower();
    MarkupLower();
    ToolingLower();
    assert !LowerAfterDot(x);
  }

  lemma ProseLower()
    ensures forall y | y in ProseExts :: LowerAfterDot(y)
  {
  }

  lemma CodeLower()
    ensures forall y | y in CodeExts :: LowerAfterDot(y)
  {
  }

  lemma ConfigLower()
    ensures forall y | y in ConfigExts :: LowerAfterDot(y)
  {
  }

  lemma MarkupLower()
    ensures forall y | y in MarkupExts :: LowerAfterDot(y)
  {
  }

  lemma ToolingLower()
    ensures forall y | y in ToolingExts :: LowerAfterDot(y)
  {
  }

  /**
   * A dot-file such as `.gitignore` has no suffix at all, so the
   * dot-file entries of `TEXT_LIKE_EXTS` only ever match names like
   * `x.gitignore`; `.gitignore` itself is sniffed.
   */
  lemma DotFileHasNoSuffix(name: string)
    requires |name| > 0 && name[0] == '.' && forall j | 0 < j < |name| :: name[j] != '.'
    ensures Suffix(name) == ""
  {
  }
}
