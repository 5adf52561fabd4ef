/**
 * The two license-link patterns (`build_blob_license_regex`,
 * `build_raw_license_regex`) as a direct matcher, their `subn` / `findall`
 * scans, and `convert_license_links`.
 *
 * A match of either pattern at index `i` is a markdown link
 *   `[` label `](` host owner `/` repo mid ref `/` key ext `)`
 * where the label runs up to the first `]` and contains `licen[cs]e`,
 * host is `https://github.com/` (blob) or `https://raw.githubusercontent.com/`
 * (raw), owner is `TensoRaws` or `EutropicAI`, repo is the repository name,
 * mid is `/blob/` (blob) or `/` (raw), ref is a non-empty run of
 * `[A-Za-z0-9._/-]`, key is `LICENSE` or `LICENCE` and ext is empty or
 * `.md`; the whole pattern ignores case as `FoldChar` folds.  At each
 * index at most one such link can start, so the patterns need no general
 * regex engine.
 */
module LicenseLinks {
  import opened Wrappers
  import opened Text

  /**
   * The two patterns share one template and differ in the host that
   * starts the target and in what separates the repository from the ref.
   */
  datatype Shape = Shape(host: string, mid: string)

  /** `build_blob_license_regex`: `https://github.com/OWNER/REPO/blob/REF/...`. */
  const Blob: Shape := Shape("https://github.com/", "/blob/")
  /** `build_raw_license_regex`: `https://raw.githubusercontent.com/OWNER/REPO/REF/...`. */
  const Raw: Shape := Shape("https://raw.githubusercontent.com/", "/")

  const TensoRaws: string := "TensoRaws"
  const EutropicAI: string := "EutropicAI"
  /** The relative target every converted link gets. */
  const Target: string := "./LICENSE"

  /**
   * The character class `[A-Za-z0-9._\-/]` under `re.IGNORECASE`: a
   * character belongs when its folded form does, which admits `İ`, `ı`, `ſ`
   * and the Kelvin sign beside the ASCII letters.
   */
  predicate IsRefChar(c: char) {
    var f := FoldChar(c);
    IsAsciiLower(f) || IsAsciiDigit(f) || f == '.' || f == '_' || f == '-' || f == '/'
  }

  /** `t[k]` exists and is in the ref class. */
  predicate RefCharAt(t: string, k: int) {
    0 <= k < |t| && IsRefChar(t[k])
  }

  predicate AllRefChars(s: string) {
    forall k | 0 <= k < |s| :: RefCharAt(s, k)
  }

  /** `licen[cs]e` (ignoring case) at index `k`. */
  predicate LicenseWordAt(s: string, k: nat) {
    k + 7 <= |s| && CiAt(s, k, "licen") && FoldChar(s[k + 5]) in "cs" && FoldChar(s[k + 6]) == 'e'
  }

  predicate HasLicenseWord(s: string) {
    exists k: nat | k + 7 <= |s| :: LicenseWordAt(s, k)
  }

  predicate IsKey(k: string) {
    CiEq(k, "LICENSE") || CiEq(k, "LICENCE")
  }

  predicate IsExt(e: string) {
    e == "" || CiEq(e, ".md")
  }

  /** `ref/KEY.ext`: the part of the link after the repository. */
  datatype TailPart = TailPart(ref: string, key: string, ext: string)
  /** The repository name, `/blob/` or `/`, and the tail. */
  datatype PathPart = PathPart(repo: string, mid: string, tail: TailPart)
  /** Host, owner and path: the link's target. */
  datatype UrlPart = UrlPart(host: string, owner: string, path: PathPart)
  /** A matched link: the caption between the brackets and the target. */
  datatype Link = Link(caption: string, url: UrlPart)

  function TailClose(tp: TailPart): string {
    tp.ref + "/" + tp.key + tp.ext + ")"
  }

  function PathClose(pp: PathPart): string {
    pp.repo + pp.mid + TailClose(pp.tail)
  }

  /** Everything after `](`, the closing `)` included. */
  function UrlClose(u: UrlPart): string {
    u.host + u.owner + "/" + PathClose(u.path)
  }

  /** The link as it stands in the text. */
  function Render(l: Link): string {
    Opening(l.caption) + UrlClose(l.url)
  }

  /** What `blob_repl` / `raw_repl` put in its place: the caption kept verbatim. */
  function Replacement(l: Link): string {
    "[" + l.caption + "](" + Target + ")"
  }

  predicate TailShape(tp: TailPart) {
    |tp.ref| > 0 && AllRefChars(tp.ref) && IsKey(tp.key) && IsExt(tp.ext)
  }

  predicate PathShape(pp: PathPart, shape: Shape, repoName: string) {
    CiEq(pp.repo, repoName) && CiEq(pp.mid, shape.mid) && TailShape(pp.tail)
  }

  predicate UrlShape(u: UrlPart, shape: Shape, repoName: string) {
    && CiEq(u.host, shape.host)
    && (CiEq(u.owner, TensoRaws) || CiEq(u.owner, EutropicAI))
    && PathShape(u.path, shape, repoName)
  }

  /** `l` is a link the pattern of `shape` accepts for repository `repoName`. */
  predicate WellFormed(l: Link, shape: Shape, repoName: string) {
    ']' !in l.caption && HasLicenseWord(l.caption) && UrlShape(l.url, shape, repoName)
  }

  /** A link of `shape` for `repoName` starts at index `i` of `t`. */
  predicate LinkAt(t: string, i: nat, l: Link, shape: Shape, repoName: string) {
    WellFormed(l, shape, repoName) && OccursAt(t, Render(l), i)
  }

  // ---------------------------------------------------------------------
  // The matcher, stage by stage from the right end of the link
  // ---------------------------------------------------------------------

  /** The first index at or after `from` holding `c`, or `|t|` if there is none. */
  function FindChar(t: string, from: nat, c: char): (k: nat)
    requires from <= |t|
    ensures from <= k <= |t|
    ensures k < |t| ==> t[k] == c
    decreases |t| - from
  {
    if from == |t| || t[from] == c then from else FindChar(t, from + 1, c)
  }

  /** `FindChar` skips no occurrence: nothing before its result holds `c`. */
  lemma {:induction false} FindCharSkipsNone(t: string, from: nat, c: char)
    requires from <= |t|
    ensures forall j | from <= j < FindChar(t, from, c) :: t[j] != c
    decreases |t| - from
  {
    if from < |t| && t[from] != c {
      FindCharSkipsNone(t, from + 1, c);
    }
  }

  /** The end of the host when it stands at `h`. */
  function HostEnd(t: string, h: nat, shape: Shape): (r: Option<nat>)
    ensures r.Some? ==> r.value == h + |shape.host| <= |t|
  {
    if CiAt(t, h, shape.host) then Some(h + |shape.host|) else None
  }

  /** The end of the owner name when one of the two stands at `o`. */
  function OwnerEnd(t: string, o: nat): (r: Option<nat>)
    ensures r.Some? ==> o <= r.value <= |t|
  {
    if CiAt(t, o, TensoRaws) then Some(o + |TensoRaws|)
    else if CiAt(t, o, EutropicAI) then Some(o + |EutropicAI|)
    else None
  }

  lemma OwnerEndSound(t: string, o: nat, oe: nat)
    requires OwnerEnd(t, o) == Some(oe)
    ensures o <= oe <= |t| && (CiEq(t[o..oe], TensoRaws) || CiEq(t[o..oe], EutropicAI))
  {
    CiAtSlice(t, o, TensoRaws);
    CiAtSlice(t, o, EutropicAI);
  }

  /** Every character of `t[a..b]` is in the ref class. */
  predicate RefCharsIn(t: string, a: nat, b: nat)
    requires a <= b <= |t|
  {
    forall k | a <= k < b :: RefCharAt(t, k)
  }

  /** `licen[cs]e` starts somewhere in `t[a..b]`. */
  predicate LicenseWordIn(t: string, a: nat, b: nat)
    requires a <= b <= |t|
  {
    exists k: nat | a <= k && k + 7 <= b :: LicenseWordAt(t, k)
  }

  /** `LICENSE` or `LICENCE` (ignoring case) at index `k`. */
  predicate IsKeyAt(t: string, k: nat) {
    CiAt(t, k, "LICENSE") || CiAt(t, k, "LICENCE")
  }

  /**
   * Splits `t[s0..p]`, the text between the ref's start and the closing
   * `)`, into ref, key and ext.  The split is forced: ext is `.md` exactly
   * when the text ends with it (a key ends in `e`, never in `d`).
   */
  function TailIn(t: string, s0: nat, p: nat): Option<TailPart>
    requires s0 <= p <= |t|
  {
    if !RefCharsIn(t, s0, p) then None
    else
      var b := if p - s0 >= 3 && CiAt(t, p - 3, ".md") then p - 3 else p;
      if b - s0 >= 9 && t[b - 8] == '/' && IsKeyAt(t, b - 7) then
        Some(TailPart(t[s0..b - 8], t[b - 7..b], t[b..p]))
      else None
  }

  lemma RefCharsSlice(t: string, a: nat, b: nat)
    requires a <= b <= |t|
    ensures AllRefChars(t[a..b]) <==> RefCharsIn(t, a, b)
  {
    var s := t[a..b];
    forall k | 0 <= k < |s| ensures RefCharAt(s, k) == RefCharAt(t, a + k) {
      assert s[k] == t[a + k];
    }
    if AllRefChars(s) {
      forall k | a <= k < b ensures RefCharAt(t, k) { assert RefCharAt(s, k - a); }
    }
    if RefCharsIn(t, a, b) {
      forall k | 0 <= k < |s| ensures RefCharAt(s, k) { assert RefCharAt(t, a + k); }
    }
  }

  lemma LicenseWordShift(t: string, a: nat, b: nat, k: nat)
    requires a <= b <= |t| && k + 7 <= b - a
    ensures LicenseWordAt(t[a..b], k) <==> LicenseWordAt(t, a + k)
  {
    var s, i := t[a..b], a + k;
    forall m | 0 <= m < 7 ensures s[k + m] == t[i + m] && SameFold(s, k, "licen", m) == SameFold(t, i, "licen", m) {
    }
    if CiAt(s, k, "licen") {
      forall m | 0 <= m < 5 ensures SameFold(t, i, "licen", m) {
        assert SameFold(s, k, "licen", m);
      }
    }
  }

  lemma LicenseWordSlice(t: string, a: nat, b: nat)
    requires a <= b <= |t|
    ensures HasLicenseWord(t[a..b]) <==> LicenseWordIn(t, a, b)
  {
    if HasLicenseWord(t[a..b]) {
      var k: nat :| k + 7 <= b - a && LicenseWordAt(t[a..b], k);
      LicenseWordShift(t, a, b, k);
    }
    if LicenseWordIn(t, a, b) {
      var k: nat :| a <= k && k + 7 <= b && LicenseWordAt(t, k);
      LicenseWordShift(t, a, b, k - a);
    }
  }

  /** What `TailIn` returns has the shape of a tail and spells `t[s0..p]` back. */
  lemma TailInSound(t: string, s0: nat, p: nat, tp: TailPart)
    requires s0 <= p <= |t| && TailIn(t, s0, p) == Some(tp)
    ensures TailShape(tp) && t[s0..p] == tp.ref + "/" + tp.key + tp.ext
  {
    var b := TailInFacts(t, s0, p, tp);
    RefCharsPrefix(t, s0, b - 8, p);
    RefCharsSlice(t, s0, b - 8);
    KeyAtShape(t, b - 7);
    ExtAtShape(t, s0, b, p);
    TailSpelled(t, s0, b, p);
  }

  /** The checks a successful `TailIn` passed, with `b` where the key ends. */
  lemma TailInFacts(t: string, s0: nat, p: nat, tp: TailPart) returns (b: nat)
    requires s0 <= p <= |t| && TailIn(t, s0, p) == Some(tp)
    ensures s0 + 9 <= b <= p && RefCharsIn(t, s0, p)
    ensures b == (if p - s0 >= 3 && CiAt(t, p - 3, ".md") then p - 3 else p)
    ensures t[b - 8] == '/' && IsKeyAt(t, b - 7)
    ensures tp.ref == t[s0..b - 8] && tp.key == t[b - 7..b] && tp.ext == t[b..p]
  {
    b := if p - s0 >= 3 && CiAt(t, p - 3, ".md") then p - 3 else p;
  }

  lemma RefCharsPrefix(t: string, a: nat, m: nat, b: nat)
    requires a <= m <= b <= |t| && RefCharsIn(t, a, b)
    ensures RefCharsIn(t, a, m)
  {
  }

  /** A key the matcher accepts at `k` is `LICENSE` or `LICENCE`. */
  lemma KeyAtShape(t: string, k: nat)
    requires IsKeyAt(t, k)
    ensures k + 7 <= |t| && IsKey(t[k..k + 7])
  {
    CiAtSlice(t, k, "LICENSE");
    CiAtSlice(t, k, "LICENCE");
  }

  /** The ext the matcher cuts off is empty or `.md`. */
  lemma ExtAtShape(t: string, s0: nat, b: nat, p: nat)
    requires s0 + 9 <= b <= p <= |t|
    requires b == (if p - s0 >= 3 && CiAt(t, p - 3, ".md") then p - 3 else p)
    ensures IsExt(t[b..p])
  {
    if b < p {
      CiAtSlice(t, p - 3, ".md");
    }
  }

  lemma TailSpelled(t: string, s0: nat, b: nat, p: nat)
    requires s0 + 9 <= b <= p <= |t| && t[b - 8] == '/'
    ensures t[s0..p] == t[s0..b - 8] + "/" + t[b - 7..b] + t[b..p]
  {
    assert t[b - 8..b - 7] == "/" by { assert t[b - 8..b - 7] == [t[b - 8]]; }
    SliceJoin(t, s0, b - 8, b - 7);
    SliceJoin(t, s0, b - 7, b);
    SliceJoin(t, s0, b, p);
  }

  lemma TailInUnfold(t: string, s0: nat, b: nat, p: nat, tp: TailPart)
    requires s0 + 9 <= b <= p <= |t| && RefCharsIn(t, s0, p)
    requires b == (if p - s0 >= 3 && CiAt(t, p - 3, ".md") then p - 3 else p)
    requires t[b - 8] == '/' && IsKeyAt(t, b - 7)
    requires t[s0..b - 8] == tp.ref && |tp.key| == 7 && OccursAt(t, tp.key, b - 7) && t[b..p] == tp.ext
    ensures TailIn(t, s0, p) == Some(tp)
  {
  }

  /** Ref, key and ext from `s0` up to and including the first `)`. */
  function TailAt(t: string, s0: nat): (r: Option<TailPart>)
    ensures r.Some? ==> s0 < |t|
  {
    if s0 > |t| then None
    else
      var p := FindChar(t, s0, ')');
      if p == |t| then None else TailIn(t, s0, p)
  }

  lemma TailAtSound(t: string, s0: nat, tp: TailPart)
    requires TailAt(t, s0) == Some(tp)
    ensures TailShape(tp) && OccursAt(t, TailClose(tp), s0)
  {
    var p := FindChar(t, s0, ')');
    TailInSound(t, s0, p, tp);
    assert TailClose(tp) == t[s0..p] + [t[p]];
    assert t[s0..p + 1] == t[s0..p] + [t[p]];
  }

  /** Repository name, mid and tail from `rp` on. */
  function PathAt(t: string, rp: nat, shape: Shape, repoName: string): (r: Option<PathPart>)
    ensures r.Some? ==> rp < |t|
  {
    if !CiAt(t, rp, repoName) then None
    else
      var m := rp + |repoName|;
      if !CiAt(t, m, shape.mid) then None
      else
        match TailAt(t, m + |shape.mid|)
        case None => None
        case Some(tp) => Some(PathPart(t[rp..m], t[m..m + |shape.mid|], tp))
  }

  lemma PathAtSound(t: string, rp: nat, shape: Shape, repoName: string, pp: PathPart)
    requires PathAt(t, rp, shape, repoName) == Some(pp)
    ensures PathShape(pp, shape, repoName) && OccursAt(t, PathClose(pp), rp)
  {
    var m := rp + |repoName|;
    TailAtSound(t, m + |shape.mid|, pp.tail);
    PathFromParts(t, rp, pp, shape, repoName);
  }

  lemma PathFromParts(t: string, rp: nat, pp: PathPart, shape: Shape, repoName: string)
    requires CiAt(t, rp, repoName) && CiAt(t, rp + |repoName|, shape.mid)
    requires var m := rp + |repoName|; pp.repo == t[rp..m] && pp.mid == t[m..m + |shape.mid|]
    requires TailShape(pp.tail) && OccursAt(t, TailClose(pp.tail), rp + |repoName| + |shape.mid|)
    ensures PathShape(pp, shape, repoName) && OccursAt(t, PathClose(pp), rp)
  {
    CiAtSlice(t, rp, repoName);
    CiAtSlice(t, rp + |repoName|, shape.mid);
    OccursJoin(t, pp.repo, pp.mid, rp);
    OccursJoin(t, pp.repo + pp.mid, TailClose(pp.tail), rp);
  }

  /** Host, owner, `/` and the path from `h` on. */
  function UrlAt(t: string, h: nat, shape: Shape, repoName: string): (r: Option<UrlPart>)
    ensures r.Some? ==> h < |t|
  {
    match HostEnd(t, h, shape)
    case None => None
    case Some(o) =>
      match OwnerEnd(t, o)
      case None => None
      case Some(oe) =>
        if oe >= |t| || t[oe] != '/' then None
        else match PathAt(t, oe + 1, shape, repoName)
          case None => None
          case Some(pp) => Some(UrlPart(t[h..o], t[o..oe], pp))
  }

  lemma UrlAtSound(t: string, h: nat, shape: Shape, repoName: string, u: UrlPart)
    requires UrlAt(t, h, shape, repoName) == Some(u)
    ensures UrlShape(u, shape, repoName) && OccursAt(t, UrlClose(u), h)
  {
    var o := HostEnd(t, h, shape).value;
    var oe := OwnerEnd(t, o).value;
    CiAtSlice(t, h, shape.host);
    OwnerEndSound(t, o, oe);
    PathAtSound(t, oe + 1, shape, repoName, u.path);
    UrlFromParts(t, h, o, oe, u, shape, repoName);
  }

  lemma UrlFromParts(t: string, h: nat, o: nat, oe: nat, u: UrlPart, shape: Shape, repoName: string)
    requires h <= o <= oe < |t| && u.host == t[h..o] && u.owner == t[o..oe] && t[oe] == '/'
    requires CiEq(u.host, shape.host) && (CiEq(u.owner, TensoRaws) || CiEq(u.owner, EutropicAI))
    requires PathShape(u.path, shape, repoName) && OccursAt(t, PathClose(u.path), oe + 1)
    ensures UrlShape(u, shape, repoName) && OccursAt(t, UrlClose(u), h)
  {
    OccursSlice(t, u.host, h, o);
    OccursSlice(t, u.owner, o, oe);
    assert t[oe..oe + 1] == "/";
    OccursSlice(t, "/", oe, oe + 1);
    OccursJoin(t, u.host, u.owner, h);
    var ho := u.host + u.owner;
    assert h + |ho| == oe;
    OccursJoin(t, ho, "/", h);
    var hos := ho + "/";
    assert h + |hos| == oe + 1;
    OccursJoin(t, hos, PathClose(u.path), h);
  }

  /** `[caption](`: what precedes the target in a link. */
  function Opening(caption: string): string {
    "[" + caption + "]("
  }

  /**
   * The index of the `]` that closes a caption opened by `[` at `i`: the
   * first `]` after it, which must be followed by `(`, with `licen[cs]e` in
   * between.
   */
  function LabelEnd(t: string, i: nat): (r: Option<nat>)
    ensures r.Some? ==> i < r.value && r.value + 2 <= |t|
  {
    if i >= |t| || t[i] != '[' then None
    else
      var j := FindChar(t, i + 1, ']');
      if j + 1 < |t| && t[j + 1] == '(' && LicenseWordIn(t, i + 1, j) then Some(j) else None
  }

  lemma LabelEndSound(t: string, i: nat, j: nat)
    requires LabelEnd(t, i) == Some(j)
    ensures i < j && j + 2 <= |t|
    ensures ']' !in t[i + 1..j] && HasLicenseWord(t[i + 1..j]) && OccursAt(t, Opening(t[i + 1..j]), i)
  {
    FindCharSkipsNone(t, i + 1, ']');
    OpeningOccurs(t, i, j);
    LicenseWordSlice(t, i + 1, j);
  }

  /** The link of `shape` for `repoName` that starts at index `i` of `t`, if any. */
  function MatchAt(t: string, i: nat, shape: Shape, repoName: string): Option<Link> {
    match LabelEnd(t, i)
    case None => None
    case Some(j) => MatchAfter(t, i, j, shape, repoName)
  }

  /** The link whose caption opened at `i` closes at `j`, if its target matches. */
  function MatchAfter(t: string, i: nat, j: nat, shape: Shape, repoName: string): Option<Link>
    requires i < j && j + 2 <= |t|
  {
    match UrlAt(t, j + 2, shape, repoName)
    case None => None
    case Some(u) => Some(Link(t[i + 1..j], u))
  }

  lemma LinkFromParts(t: string, i: nat, j: nat, l: Link, shape: Shape, repoName: string)
    requires i < j && j + 2 <= |t| && l.caption == t[i + 1..j]
    requires ']' !in l.caption && HasLicenseWord(l.caption)
    requires OccursAt(t, Opening(l.caption), i)
    requires UrlShape(l.url, shape, repoName) && OccursAt(t, UrlClose(l.url), j + 2)
    ensures LinkAt(t, i, l, shape, repoName)
  {
    assert i + |Opening(l.caption)| == j + 2;
    OccursJoin(t, Opening(l.caption), UrlClose(l.url), i);
  }

  lemma OpeningOccurs(t: string, i: nat, j: nat)
    requires i < j && j + 1 < |t| && t[i] == '[' && t[j] == ']' && t[j + 1] == '('
    requires forall k | i + 1 <= k < j :: t[k] != ']'
    ensures ']' !in t[i + 1..j] && OccursAt(t, Opening(t[i + 1..j]), i)
  {
    var c := t[i + 1..j];
    forall k | 0 <= k < |c| ensures c[k] != ']' {
      assert c[k] == t[i + 1 + k];
    }
    assert OccursAt(t, "[", i) by { assert t[i..i + 1] == [t[i]]; }
    assert OccursAt(t, c, i + 1);
    assert OccursAt(t, "](", j) by { assert t[j..j + 2] == [t[j], t[j + 1]]; }
    OccursConcat(t, "[", c, i);
    OccursConcat(t, "[" + c, "](", i);
  }

  // ---------------------------------------------------------------------
  // Completeness: every link the pattern accepts is the one MatchAt finds
  // ---------------------------------------------------------------------

  lemma FindCharFirst(t: string, from: nat, c: char, k: nat)
    requires from <= k < |t| && t[k] == c
    requires forall j | from <= j < k :: t[j] != c
    ensures FindChar(t, from, c) == k
  {
    FindCharSkipsNone(t, from, c);
  }

  /** Case-insensitive equality to a literal over the ref class keeps one inside it. */
  lemma CiEqRefChars(s: string, lit: string)
    requires CiEq(s, lit) && AllRefChars(lit)
    ensures AllRefChars(s)
  {
    forall k | 0 <= k < |s| ensures RefCharAt(s, k) {
      assert SameFold(s, 0, lit, k) && RefCharAt(lit, k);
    }
  }

  lemma AllRefCharsConcat(a: string, b: string)
    requires AllRefChars(a) && AllRefChars(b)
    ensures AllRefChars(a + b)
  {
    forall k | 0 <= k < |a + b| ensures RefCharAt(a + b, k) {
      if k < |a| {
        assert (a + b)[k] == a[k] && RefCharAt(a, k);
      } else {
        assert (a + b)[k] == b[k - |a|] && RefCharAt(b, k - |a|);
      }
    }
  }

  /** Everything between the ref's start and the closing `)` is in the ref class. */
  lemma TailRefChars(tp: TailPart)
    requires TailShape(tp)
    ensures AllRefChars(tp.ref + "/" + tp.key + tp.ext)
  {
    if CiEq(tp.key, "LICENSE") { CiEqRefChars(tp.key, "LICENSE"); } else { CiEqRefChars(tp.key, "LICENCE"); }
    if tp.ext != "" { CiEqRefChars(tp.ext, ".md"); }
    AllRefCharsConcat(tp.ref, "/");
    AllRefCharsConcat(tp.ref + "/", tp.key);
    AllRefCharsConcat(tp.ref + "/" + tp.key, tp.ext);
  }

  /** Where the pieces of a tail spelled out at `s0` lie. */
  lemma TailPositions(t: string, s0: nat, tp: TailPart)
    requires OccursAt(t, tp.ref + "/" + tp.key + tp.ext, s0)
    ensures var r := s0 + |tp.ref|; var b := r + 1 + |tp.key|;
      && b + |tp.ext| <= |t| && t[s0..r] == tp.ref && t[r] == '/'
      && OccursAt(t, tp.key, r + 1) && t[b..b + |tp.ext|] == tp.ext
  {
    OccursSplit(t, tp.ref + "/" + tp.key, tp.ext, s0);
    OccursSplit(t, tp.ref + "/", tp.key, s0);
    OccursSplit(t, tp.ref, "/", s0);
    OccursIndex(t, "/", s0 + |tp.ref|, 0);
  }

  /** A key spelled out at `k` is one the matcher accepts there. */
  lemma KeyShapeAt(t: string, k: nat, key: string)
    requires IsKey(key) && OccursAt(t, key, k)
    ensures IsKeyAt(t, k)
  {
    CiAtSlice(t, k, "LICENSE");
    CiAtSlice(t, k, "LICENCE");
  }

  /** After a key at `b - 7`, the matcher cuts the ext off exactly where it begins. */
  lemma ExtShapeAt(t: string, s0: nat, b: nat, key: string, ext: string)
    requires s0 + 9 <= b && IsKey(key) && OccursAt(t, key, b - 7)
    requires IsExt(ext) && OccursAt(t, ext, b)
    ensures var p := b + |ext|; b == (if p - s0 >= 3 && CiAt(t, p - 3, ".md") then p - 3 else p)
  {
    if ext == "" {
      OccursIndex(t, key, b - 7, 4);
      if CiEq(key, "LICENSE") { assert SameFold(key, 0, "LICENSE", 4); } else { assert SameFold(key, 0, "LICENCE", 4); }
      CiAtFirst(t, b - 3, ".md");
    } else {
      CiAtSlice(t, b, ".md");
    }
  }

  lemma TailRefCharsAt(t: string, s0: nat, p: nat, tp: TailPart)
    requires TailShape(tp) && OccursAt(t, tp.ref + "/" + tp.key + tp.ext, s0)
    requires p == s0 + |tp.ref + "/" + tp.key + tp.ext|
    ensures RefCharsIn(t, s0, p)
  {
    TailRefChars(tp);
    RefCharsSlice(t, s0, p);
  }

  /** A tail of the right shape spelled out at `s0` is split back into its parts. */
  lemma TailInComplete(t: string, s0: nat, p: nat, tp: TailPart)
    requires TailShape(tp) && OccursAt(t, tp.ref + "/" + tp.key + tp.ext, s0)
    requires p == s0 + |tp.ref + "/" + tp.key + tp.ext|
    ensures TailIn(t, s0, p) == Some(tp)
  {
    TailPositions(t, s0, tp);
    assert |tp.key| == 7;
    var b := s0 + |tp.ref| + 8;
    TailRefCharsAt(t, s0, p, tp);
    KeyShapeAt(t, b - 7, tp.key);
    ExtShapeAt(t, s0, b, tp.key, tp.ext);
    TailInUnfold(t, s0, b, p, tp);
  }

  lemma TailAtComplete(t: string, s0: nat, tp: TailPart)
    requires TailShape(tp) && OccursAt(t, TailClose(tp), s0)
    ensures TailAt(t, s0) == Some(tp)
  {
    var tail := tp.ref + "/" + tp.key + tp.ext;
    assert TailClose(tp) == tail + ")";
    OccursConcat(t, tail, ")", s0);
    var p := s0 + |tail|;
    assert t[p] == ')' by { assert t[p..p + 1] == ")"; }
    TailRefChars(tp);
    forall k | s0 <= k < p ensures t[k] != ')' {
      assert t[k] == tail[k - s0] && RefCharAt(tail, k - s0);
    }
    FindCharFirst(t, s0, ')', p);
    TailInComplete(t, s0, p, tp);
  }







  lemma UrlAtUnfold(t: string, h: nat, o: nat, oe: nat, u: UrlPart, shape: Shape, repoName: string)
    requires HostEnd(t, h, shape) == Some(o) && OwnerEnd(t, o) == Some(oe)
    requires oe < |t| && t[oe] == '/' && PathAt(t, oe + 1, shape, repoName) == Some(u.path)
    requires u.host == t[h..o] && u.owner == t[o..oe]
    ensures UrlAt(t, h, shape, repoName) == Some(u)
  {
  }

  lemma OwnerEndComplete(t: string, o: nat, owner: string)
    requires CiEq(owner, TensoRaws) || CiEq(owner, EutropicAI)
    requires OccursAt(t, owner, o)
    ensures OwnerEnd(t, o) == Some(o + |owner|)
  {
    CiAtSlice(t, o, TensoRaws);
    CiAtSlice(t, o, EutropicAI);
    if !CiEq(owner, TensoRaws) {
      assert t[o] == owner[0] && SameFold(owner, 0, EutropicAI, 0);
      CiAtFirst(t, o, TensoRaws);
    }
  }

  /** A caption the pattern accepts, opened at `i`, is closed where `LabelEnd` says. */
  lemma LabelEndComplete(t: string, i: nat, c: string, j: nat)
    requires OccursAt(t, Opening(c), i) && ']' !in c && HasLicenseWord(c) && j == i + 1 + |c|
    ensures LabelEnd(t, i) == Some(j) && c == t[i + 1..j]
  {
    OccursSplit(t, "[" + c, "](", i);
    OccursSplit(t, "[", c, i);
    assert t[i] == '[' by { assert t[i..i + 1] == "["; }
    assert t[j] == ']' && t[j + 1] == '(' by { assert t[j..j + 2] == "]("; }
    forall k | i + 1 <= k < j ensures t[k] != ']' {
      assert t[k] == c[k - i - 1];
    }
    FindCharFirst(t, i + 1, ']', j);
    LicenseWordSlice(t, i + 1, j);
  }

  lemma MatchAtComplete(t: string, i: nat, l: Link, shape: Shape, repoName: string)
    requires LinkAt(t, i, l, shape, repoName)
    ensures MatchAt(t, i, shape, repoName) == Some(l)
  {
    var j := CaptionPiece(t, i, l, shape, repoName);
    TargetPiece(t, i, l, shape, repoName, j);
    MatchAtFromParts(t, i, j, l, shape, repoName);
  }

  lemma TargetPiece(t: string, i: nat, l: Link, shape: Shape, repoName: string, j: nat)
    requires LinkAt(t, i, l, shape, repoName) && j == i + 1 + |l.caption|
    ensures UrlAt(t, j + 2, shape, repoName) == Some(l.url)
  {
    var o := j + 2 + |l.url.host|;
    var oe := o + |l.url.owner|;
    HostPiece(t, i, l, shape, repoName, j, o);
    OwnerPiece(t, i, l, shape, repoName, j, o, oe);
    PathPiece(t, i, l, shape, repoName, j, o, oe);
    UrlAtUnfold(t, j + 2, o, oe, l.url, shape, repoName);
  }

  // Each piece below reads one stage of the matcher off an accepted link.
  // The positions are passed in, so that every stage meets the next on the
  // same terms.

  lemma HostPiece(t: string, i: nat, l: Link, shape: Shape, repoName: string, j: nat, o: nat)
    requires LinkAt(t, i, l, shape, repoName) && j == i + 1 + |l.caption| && o == j + 2 + |l.url.host|
    ensures HostEnd(t, j + 2, shape) == Some(o) && l.url.host == t[j + 2..o]
  {
    LinkAtSplit(t, i, l, shape, repoName, j);
    UrlSplit(t, j + 2, l.url, shape, repoName, o, o + |l.url.owner|);
    CiAtComplete(t, j + 2, l.url.host, shape.host);
  }

  lemma OwnerPiece(t: string, i: nat, l: Link, shape: Shape, repoName: string, j: nat, o: nat, oe: nat)
    requires LinkAt(t, i, l, shape, repoName) && j == i + 1 + |l.caption| && o == j + 2 + |l.url.host|
    requires oe == o + |l.url.owner|
    ensures OwnerEnd(t, o) == Some(oe) && l.url.owner == t[o..oe] && oe < |t| && t[oe] == '/'
  {
    LinkAtSplit(t, i, l, shape, repoName, j);
    UrlSplit(t, j + 2, l.url, shape, repoName, o, oe);
    OwnerEndComplete(t, o, l.url.owner);
  }

  lemma PathPiece(t: string, i: nat, l: Link, shape: Shape, repoName: string, j: nat, o: nat, oe: nat)
    requires LinkAt(t, i, l, shape, repoName) && j == i + 1 + |l.caption| && o == j + 2 + |l.url.host|
    requires oe == o + |l.url.owner|
    ensures PathAt(t, oe + 1, shape, repoName) == Some(l.url.path)
  {
    var m := oe + 1 + |repoName|;
    var s0 := m + |shape.mid|;
    RepoPiece(t, i, l, shape, repoName, j, o, oe, m);
    MidPiece(t, i, l, shape, repoName, j, o, oe, m, s0);
    TailPiece(t, i, l, shape, repoName, j, o, oe, s0);
    PathAtUnfold(t, oe + 1, m, s0, l.url.path, shape, repoName);
  }

  lemma RepoPiece(t: string, i: nat, l: Link, shape: Shape, repoName: string, j: nat, o: nat, oe: nat, m: nat)
    requires LinkAt(t, i, l, shape, repoName) && j == i + 1 + |l.caption| && o == j + 2 + |l.url.host|
    requires oe == o + |l.url.owner| && m == oe + 1 + |repoName|
    ensures CiAt(t, oe + 1, repoName) && l.url.path.repo == t[oe + 1..m]
  {
    var pp := l.url.path;
    LinkAtSplit(t, i, l, shape, repoName, j);
    UrlSplit(t, j + 2, l.url, shape, repoName, o, oe);
    PathSplit(t, oe + 1, pp, shape, repoName, oe + 1 + |pp.repo|, oe + 1 + |pp.repo| + |pp.mid|);
    CiAtComplete(t, oe + 1, pp.repo, repoName);
  }

  lemma MidPiece(t: string, i: nat, l: Link, shape: Shape, repoName: string, j: nat, o: nat, oe: nat, m: nat, s0: nat)
    requires LinkAt(t, i, l, shape, repoName) && j == i + 1 + |l.caption| && o == j + 2 + |l.url.host|
    requires oe == o + |l.url.owner| && m == oe + 1 + |repoName| && s0 == m + |shape.mid|
    ensures CiAt(t, m, shape.mid) && l.url.path.mid == t[m..s0]
  {
    var pp := l.url.path;
    LinkAtSplit(t, i, l, shape, repoName, j);
    UrlSplit(t, j + 2, l.url, shape, repoName, o, oe);
    PathSplit(t, oe + 1, pp, shape, repoName, m, m + |pp.mid|);
    CiAtComplete(t, m, pp.mid, shape.mid);
  }

  lemma TailPiece(t: string, i: nat, l: Link, shape: Shape, repoName: string, j: nat, o: nat, oe: nat, s0: nat)
    requires LinkAt(t, i, l, shape, repoName) && j == i + 1 + |l.caption| && o == j + 2 + |l.url.host|
    requires oe == o + |l.url.owner| && s0 == oe + 1 + |repoName| + |shape.mid|
    ensures TailAt(t, s0) == Some(l.url.path.tail)
  {
    var pp := l.url.path;
    LinkAtSplit(t, i, l, shape, repoName, j);
    UrlSplit(t, j + 2, l.url, shape, repoName, o, oe);
    PathSplit(t, oe + 1, pp, shape, repoName, oe + 1 + |pp.repo|, s0);
    TailAtComplete(t, s0, pp.tail);
  }

  /** Where the pieces of a target of the right shape, spelled out at `h`, lie. */
  lemma UrlSplit(t: string, h: nat, u: UrlPart, shape: Shape, repoName: string, o: nat, oe: nat)
    requires UrlShape(u, shape, repoName) && OccursAt(t, UrlClose(u), h)
    requires o == h + |u.host| && oe == o + |u.owner|
    ensures OccursAt(t, u.host, h) && CiEq(u.host, shape.host)
    ensures OccursAt(t, u.owner, o) && (CiEq(u.owner, TensoRaws) || CiEq(u.owner, EutropicAI))
    ensures oe < |t| && t[oe] == '/'
    ensures PathShape(u.path, shape, repoName) && OccursAt(t, PathClose(u.path), oe + 1)
  {
    OccursSplit(t, u.host + u.owner + "/", PathClose(u.path), h);
    OccursSplit(t, u.host + u.owner, "/", h);
    OccursSplit(t, u.host, u.owner, h);
    OccursIndex(t, "/", oe, 0);
  }

  /** Where the pieces of a path of the right shape, spelled out at `rp`, lie. */
  lemma PathSplit(t: string, rp: nat, pp: PathPart, shape: Shape, repoName: string, m: nat, s0: nat)
    requires PathShape(pp, shape, repoName) && OccursAt(t, PathClose(pp), rp)
    requires m == rp + |pp.repo| && s0 == m + |pp.mid|
    ensures OccursAt(t, pp.repo, rp) && CiEq(pp.repo, repoName)
    ensures OccursAt(t, pp.mid, m) && CiEq(pp.mid, shape.mid)
    ensures TailShape(pp.tail) && OccursAt(t, TailClose(pp.tail), s0)
  {
    OccursSplit(t, pp.repo + pp.mid, TailClose(pp.tail), rp);
    OccursSplit(t, pp.repo, pp.mid, rp);
  }

  /** A text equal to `lit` up to case, spelled out at `k`, is where `CiAt` finds `lit`. */
  lemma CiAtComplete(t: string, k: nat, s: string, lit: string)
    requires OccursAt(t, s, k) && CiEq(s, lit)
    ensures CiAt(t, k, lit) && |s| == |lit| && s == t[k..k + |s|]
  {
    CiAtSlice(t, k, lit);
  }

  lemma PathAtUnfold(t: string, rp: nat, m: nat, s0: nat, pp: PathPart, shape: Shape, repoName: string)
    requires CiAt(t, rp, repoName) && m == rp + |repoName| && pp.repo == t[rp..m]
    requires CiAt(t, m, shape.mid) && s0 == m + |shape.mid| && pp.mid == t[m..s0]
    requires TailAt(t, s0) == Some(pp.tail)
    ensures PathAt(t, rp, shape, repoName) == Some(pp)
  {
  }




  lemma CaptionPiece(t: string, i: nat, l: Link, shape: Shape, repoName: string) returns (j: nat)
    requires LinkAt(t, i, l, shape, repoName)
    ensures LabelEnd(t, i) == Some(j) && l.caption == t[i + 1..j] && j == i + 1 + |l.caption|
  {
    j := i + 1 + |l.caption|;
    LinkAtSplit(t, i, l, shape, repoName, j);
    LabelEndComplete(t, i, l.caption, j);
  }



  lemma LinkAtSplit(t: string, i: nat, l: Link, shape: Shape, repoName: string, j: nat)
    requires LinkAt(t, i, l, shape, repoName) && j == i + 1 + |l.caption|
    ensures OccursAt(t, Opening(l.caption), i)
    ensures ']' !in l.caption && HasLicenseWord(l.caption)
    ensures UrlShape(l.url, shape, repoName) && OccursAt(t, UrlClose(l.url), j + 2)
  {
    OccursSplit(t, Opening(l.caption), UrlClose(l.url), i);
  }

  lemma MatchAtFromParts(t: string, i: nat, j: nat, l: Link, shape: Shape, repoName: string)
    requires LabelEnd(t, i) == Some(j) && l.caption == t[i + 1..j] && j == i + 1 + |l.caption|
    requires UrlAt(t, j + 2, shape, repoName) == Some(l.url)
    ensures MatchAt(t, i, shape, repoName) == Some(l)
  {
    MatchAfterComplete(t, i, j, l, shape, repoName);
  }

  lemma MatchAfterComplete(t: string, i: nat, j: nat, l: Link, shape: Shape, repoName: string)
    requires i < j && j + 2 <= |t| && l.caption == t[i + 1..j]
    requires UrlAt(t, j + 2, shape, repoName) == Some(l.url)
    ensures MatchAfter(t, i, j, shape, repoName) == Some(l)
  {
    assert l == Link(t[i + 1..j], l.url);
  }

  /** What the matcher finds is a link the pattern accepts. */
  lemma MatchAtSound(t: string, i: nat, shape: Shape, repoName: string, l: Link)
    requires MatchAt(t, i, shape, repoName) == Some(l)
    ensures LinkAt(t, i, l, shape, repoName)
  {
    var j := MatchAtStages(t, i, shape, repoName, l);
    LinkSound(t, i, j, l, shape, repoName);
  }

  /** A match read back stage by stage: where its caption closes, and its target. */
  lemma MatchAtStages(t: string, i: nat, shape: Shape, repoName: string, l: Link) returns (j: nat)
    requires MatchAt(t, i, shape, repoName) == Some(l)
    ensures LabelEnd(t, i) == Some(j) && i < j && j + 2 <= |t| && l.caption == t[i + 1..j]
    ensures UrlAt(t, j + 2, shape, repoName) == Some(l.url)
  {
    j := LabelEnd(t, i).value;
  }

  lemma LinkSound(t: string, i: nat, j: nat, l: Link, shape: Shape, repoName: string)
    requires LabelEnd(t, i) == Some(j) && i < j && j + 2 <= |t| && l.caption == t[i + 1..j]
    requires UrlAt(t, j + 2, shape, repoName) == Some(l.url)
    ensures LinkAt(t, i, l, shape, repoName)
  {
    LabelEndSound(t, i, j);
    UrlAtSound(t, j + 2, shape, repoName, l.url);
    LinkFromParts(t, i, j, l, shape, repoName);
  }


  /** The matcher finds exactly the links the pattern accepts at `i`. */
  lemma MatchAtIff(t: string, i: nat, l: Link, shape: Shape, repoName: string)
    ensures MatchAt(t, i, shape, repoName) == Some(l) <==> LinkAt(t, i, l, shape, repoName)
  {
    if MatchAt(t, i, shape, repoName) == Some(l) { MatchAtSound(t, i, shape, repoName, l); }
    if LinkAt(t, i, l, shape, repoName) { MatchAtComplete(t, i, l, shape, repoName); }
  }

  /** Where no link starts, the matcher finds nothing. */
  lemma MatchAtNone(t: string, i: nat, shape: Shape, repoName: string)
    requires forall l :: !LinkAt(t, i, l, shape, repoName)
    ensures MatchAt(t, i, shape, repoName) == None
  {
    forall l ensures MatchAt(t, i, shape, repoName) != Some(l) {
      MatchAtIff(t, i, l, shape, repoName);
    }
  }

  /** At most one link of a shape starts at any index, so the match is deterministic. */
  lemma LinkAtUnique(t: string, i: nat, l1: Link, l2: Link, shape: Shape, repoName: string)
    requires LinkAt(t, i, l1, shape, repoName) && LinkAt(t, i, l2, shape, repoName)
    ensures l1 == l2
  {
    MatchAtComplete(t, i, l1, shape, repoName);
    MatchAtComplete(t, i, l2, shape, repoName);
  }

  // ---------------------------------------------------------------------
  // `subn` and `findall`: scan left to right, take the link that starts at
  // the current index, never look inside a link already taken.  The scan
  // reads the matcher's answers from a table with one entry per index, so
  // its proofs do not depend on how the matcher works.
  // ---------------------------------------------------------------------

  /** A table of matcher answers fits `t` when every link it records ends inside `t`. */
  predicate Fits(t: string, ms: seq<Option<Link>>) {
    |ms| == |t| && forall k | 0 <= k < |ms| && ms[k].Some? :: k + |Render(ms[k].value)| <= |t|
  }

  /** Every link the table records is spelled out in `t` where it starts. */
  predicate Spelled(t: string, ms: seq<Option<Link>>) {
    |ms| == |t| && forall k | 0 <= k < |ms| && ms[k].Some? :: OccursAt(t, Render(ms[k].value), k)
  }

  /** The matcher's answer at every index of `t`. */
  function Matches(t: string, shape: Shape, repoName: string): (ms: seq<Option<Link>>)
    ensures |ms| == |t|
  {
    seq(|t|, k requires 0 <= k < |t| => MatchAt(t, k, shape, repoName))
  }

  lemma MatchesFit(t: string, shape: Shape, repoName: string)
    ensures Fits(t, Matches(t, shape, repoName)) && Spelled(t, Matches(t, shape, repoName))
  {
    var ms := Matches(t, shape, repoName);
    forall k | 0 <= k < |ms| && ms[k].Some? ensures OccursAt(t, Render(ms[k].value), k) {
      MatchAtSound(t, k, shape, repoName, ms[k].value);
    }
  }

  /** The scan from index `i` on: the rewritten rest of the text and how many links it replaced. */
  function SubFrom(t: string, ms: seq<Option<Link>>, i: nat): (string, nat)
    requires Fits(t, ms) && i <= |t|
    decreases |t| - i
  {
    if i == |t| then ("", 0)
    else match ms[i]
      case Some(l) =>
        var rest := SubFrom(t, ms, i + |Render(l)|);
        (Replacement(l) + rest.0, rest.1 + 1)
      case None =>
        var rest := SubFrom(t, ms, i + 1);
        ([t[i]] + rest.0, rest.1)
  }

  /** `pattern.subn(repl, t)` for the pattern of `shape`, with `repl` giving `[caption](./LICENSE)`. */
  function Subn(t: string, shape: Shape, repoName: string): (string, nat) {
    MatchesFit(t, shape, repoName);
    SubFrom(t, Matches(t, shape, repoName), 0)
  }

  /**
   * `len(pattern.findall(t))`: `findall` runs the same leftmost,
   * non-overlapping scan as `subn`, so it finds as many links as `subn`
   * replaces (the list itself is only ever measured).
   */
  function FindAllCount(t: string, shape: Shape, repoName: string): nat {
    Subn(t, shape, repoName).1
  }

  /** A piece of a scanned text: a character no link starts at, or a whole link. */
  datatype Segment = Plain(c: char) | Hit(link: Link)

  /** How a segment reads in the scanned text. */
  function Spell(seg: Segment): string {
    match seg
    case Plain(c) => [c]
    case Hit(l) => Render(l)
  }

  /** What the rewrite puts in a segment's place. */
  function Rewrite(seg: Segment): string {
    match seg
    case Plain(c) => [c]
    case Hit(l) => Replacement(l)
  }

  /** The link a segment holds, if any. */
  function Found(seg: Segment): seq<Link> {
    match seg
    case Plain(_) => []
    case Hit(l) => [l]
  }

  function Original(segs: seq<Segment>): string {
    if |segs| == 0 then "" else Spell(segs[0]) + Original(segs[1..])
  }

  /** The text with every link replaced by `[caption](./LICENSE)`. */
  function Rewritten(segs: seq<Segment>): string {
    if |segs| == 0 then "" else Rewrite(segs[0]) + Rewritten(segs[1..])
  }

  function Links(segs: seq<Segment>): seq<Link> {
    if |segs| == 0 then [] else Found(segs[0]) + Links(segs[1..])
  }

  /** The table's answer at `i` is what `seg` says: no link at a plain character, that link at a hit. */
  predicate Agrees(t: string, ms: seq<Option<Link>>, i: nat, seg: Segment)
    requires |ms| == |t| && i < |t|
  {
    match seg
    case Plain(c) => c == t[i] && ms[i] == None
    case Hit(l) => ms[i] == Some(l)
  }

  /**
   * `segs` cuts `t[i..]` the way a leftmost, non-overlapping scan does: at
   * each index the table is consulted; a link found there is taken whole,
   * otherwise the character is kept and the scan moves on by one.
   * `ParseHead` reads each step back in terms of `LinkAt`.
   */
  ghost predicate LeftmostParse(t: string, ms: seq<Option<Link>>, i: nat, segs: seq<Segment>)
    requires |ms| == |t|
    decreases |segs|
  {
    if |segs| == 0 then i == |t|
    else i < |t| && Agrees(t, ms, i, segs[0]) && LeftmostParse(t, ms, i + |Spell(segs[0])|, segs[1..])
  }

  /**
   * Each step of a parse of the matcher's table is what the pattern says: a
   * link segment is a link the pattern accepts at that index, a plain one
   * sits where no link starts.
   */
  lemma ParseHead(t: string, i: nat, segs: seq<Segment>, shape: Shape, repoName: string)
    requires |segs| > 0 && LeftmostParse(t, Matches(t, shape, repoName), i, segs)
    ensures segs[0].Hit? ==> LinkAt(t, i, segs[0].link, shape, repoName)
    ensures segs[0].Plain? ==> segs[0].c == t[i] && forall l :: !LinkAt(t, i, l, shape, repoName)
  {
    assert Matches(t, shape, repoName)[i] == MatchAt(t, i, shape, repoName);
    if segs[0].Hit? {
      MatchAtSound(t, i, shape, repoName, segs[0].link);
    } else {
      forall l ensures !LinkAt(t, i, l, shape, repoName) {
        MatchAtIff(t, i, l, shape, repoName);
      }
    }
  }

  /** The segment the scan takes at `i`. */
  function HeadSegment(t: string, ms: seq<Option<Link>>, i: nat): (seg: Segment)
    requires |ms| == |t| && i < |t|
    ensures Agrees(t, ms, i, seg)
  {
    match ms[i]
    case Some(l) => Hit(l)
    case None => Plain(t[i])
  }

  /** Every text has such a parse. */
  lemma {:induction false} ParseExists(t: string, ms: seq<Option<Link>>, i: nat) returns (segs: seq<Segment>)
    requires Fits(t, ms) && i <= |t|
    ensures LeftmostParse(t, ms, i, segs)
    decreases |t| - i
  {
    if i == |t| {
      segs := [];
    } else {
      var seg := HeadSegment(t, ms, i);
      var k := HeadAdvances(t, ms, i, seg);
      var rest := ParseExists(t, ms, k);
      segs := [seg] + rest;
      ParseCons(t, ms, i, seg, k, rest);
    }
  }

  /** A segment the table agrees with ends inside the text, past where it starts. */
  lemma HeadAdvances(t: string, ms: seq<Option<Link>>, i: nat, seg: Segment) returns (k: nat)
    requires Fits(t, ms) && i < |t| && Agrees(t, ms, i, seg)
    ensures k == i + |Spell(seg)| && i < k <= |t|
  {
    k := i + |Spell(seg)|;
  }

  lemma ParseCons(t: string, ms: seq<Option<Link>>, i: nat, seg: Segment, k: nat, rest: seq<Segment>)
    requires |ms| == |t| && i < |t| && Agrees(t, ms, i, seg) && k == i + |Spell(seg)|
    requires LeftmostParse(t, ms, k, rest)
    ensures LeftmostParse(t, ms, i, [seg] + rest)
  {
    assert ([seg] + rest)[1..] == rest;
  }

  /** ... and it is unique. */
  lemma {:induction false} ParseUnique(t: string, ms: seq<Option<Link>>, i: nat, s1: seq<Segment>, s2: seq<Segment>)
    requires |ms| == |t| && LeftmostParse(t, ms, i, s1) && LeftmostParse(t, ms, i, s2)
    ensures s1 == s2
    decreases |s1|
  {
    if |s1| > 0 && |s2| > 0 {
      var k := ParseStep(t, ms, i, s1);
      var k2 := ParseStep(t, ms, i, s2);
      AgreesUnique(t, ms, i, s1[0], s2[0]);
      ParseUnique(t, ms, k, s1[1..], s2[1..]);
      SameHeadTail(s1, s2);
    }
  }

  lemma SameHeadTail<T>(s1: seq<T>, s2: seq<T>)
    requires |s1| > 0 && |s2| > 0 && s1[0] == s2[0] && s1[1..] == s2[1..]
    ensures s1 == s2
  {
    assert s1 == [s1[0]] + s1[1..];
    assert s2 == [s2[0]] + s2[1..];
  }

  lemma AgreesUnique(t: string, ms: seq<Option<Link>>, i: nat, a: Segment, b: Segment)
    requires |ms| == |t| && i < |t| && Agrees(t, ms, i, a) && Agrees(t, ms, i, b)
    ensures a == b
  {
  }

  /** A segment the table agrees with is spelled out where it starts. */
  lemma SegmentSpelled(t: string, ms: seq<Option<Link>>, i: nat, seg: Segment)
    requires Spelled(t, ms) && i < |t| && Agrees(t, ms, i, seg)
    ensures OccursAt(t, Spell(seg), i)
  {
    if seg.Plain? {
      assert t[i..i + 1] == [seg.c];
    } else {
      assert ms[i].Some?;
    }
  }

  /** The parse covers the text: gluing the segments back gives `t[i..]`. */
  lemma {:induction false} ParseCovers(t: string, ms: seq<Option<Link>>, i: nat, segs: seq<Segment>)
    requires Spelled(t, ms) && LeftmostParse(t, ms, i, segs)
    ensures i <= |t| && Original(segs) == t[i..]
    decreases |segs|
  {
    if |segs| > 0 {
      var w := Spell(segs[0]);
      SegmentSpelled(t, ms, i, segs[0]);
      OccursPrefix(t, w, i);
      ParseCovers(t, ms, i + |w|, segs[1..]);
    }
  }

  /** The first step of a parse: where the next segment starts. */
  lemma ParseStep(t: string, ms: seq<Option<Link>>, i: nat, segs: seq<Segment>) returns (k: nat)
    requires |ms| == |t| && |segs| > 0 && LeftmostParse(t, ms, i, segs)
    ensures i < |t| && Agrees(t, ms, i, segs[0])
    ensures k == i + |Spell(segs[0])| && LeftmostParse(t, ms, k, segs[1..])
  {
    k := i + |Spell(segs[0])|;
  }

  /** One step of the scan, read off the segment the table agrees with. */
  lemma SubFromStep(t: string, ms: seq<Option<Link>>, i: nat, seg: Segment, k: nat)
    requires Fits(t, ms) && i < |t| && Agrees(t, ms, i, seg) && k == i + |Spell(seg)| <= |t|
    ensures SubFrom(t, ms, i) == (Rewrite(seg) + SubFrom(t, ms, k).0, SubFrom(t, ms, k).1 + |Found(seg)|)
  {
  }

  /**
   * The scan rewrites exactly the parse: every link becomes
   * `[caption](./LICENSE)`, every other character is kept, and the count
   * is the number of links.
   */
  lemma {:induction false} SubFromIsRewrite(t: string, ms: seq<Option<Link>>, i: nat, segs: seq<Segment>)
    requires Fits(t, ms) && i <= |t| && LeftmostParse(t, ms, i, segs)
    ensures SubFrom(t, ms, i) == (Rewritten(segs), |Links(segs)|)
    decreases |segs|
  {
    if |segs| > 0 {
      var k := ParseStep(t, ms, i, segs);
      ParseInside(t, ms, k, segs[1..]);
      SubFromIsRewrite(t, ms, k, segs[1..]);
      SubFromCons(t, ms, i, segs, k);
    }
  }

  /** A parse starts inside the text. */
  lemma ParseInside(t: string, ms: seq<Option<Link>>, i: nat, segs: seq<Segment>)
    requires |ms| == |t| && LeftmostParse(t, ms, i, segs)
    ensures i <= |t|
  {
  }

  lemma SubFromCons(t: string, ms: seq<Option<Link>>, i: nat, segs: seq<Segment>, k: nat)
    requires Fits(t, ms) && |segs| > 0 && i < |t| && Agrees(t, ms, i, segs[0])
    requires k == i + |Spell(segs[0])| <= |t|
    requires SubFrom(t, ms, k) == (Rewritten(segs[1..]), |Links(segs[1..])|)
    ensures SubFrom(t, ms, i) == (Rewritten(segs), |Links(segs)|)
  {
    SubFromStep(t, ms, i, segs[0], k);
    RewriteCons(segs, SubFrom(t, ms, i), SubFrom(t, ms, k));
  }

  lemma RewriteCons(segs: seq<Segment>, whole: (string, nat), rest: (string, nat))
    requires |segs| > 0 && rest == (Rewritten(segs[1..]), |Links(segs[1..])|)
    requires whole == (Rewrite(segs[0]) + rest.0, rest.1 + |Found(segs[0])|)
    ensures whole == (Rewritten(segs), |Links(segs)|)
  {
  }

  /** Without links the rewrite is the identity: text outside links is never touched. */
  lemma {:induction false} NoLinksUnchanged(segs: seq<Segment>)
    requires |Links(segs)| == 0
    ensures Rewritten(segs) == Original(segs)
    decreases |segs|
  {
    if |segs| > 0 {
      assert segs[0].Plain?;
      NoLinksUnchanged(segs[1..]);
    }
  }

  // ---------------------------------------------------------------------
  // `subn` in one piece, and `convert_license_links`
  // ---------------------------------------------------------------------

  /**
   * `pattern.subn(repl, t)` is the rewrite of the one leftmost parse of
   * `t`: the parse spells `t` back, every link in it becomes
   * `[caption](./LICENSE)`, everything else is kept, and the count is the
   * number of links.
   */
  lemma SubnParse(t: string, shape: Shape, repoName: string) returns (segs: seq<Segment>)
    ensures LeftmostParse(t, Matches(t, shape, repoName), 0, segs)
    ensures forall other | LeftmostParse(t, Matches(t, shape, repoName), 0, other) :: other == segs
    ensures Original(segs) == t
    ensures Subn(t, shape, repoName) == (Rewritten(segs), |Links(segs)|)
  {
    var ms := Matches(t, shape, repoName);
    MatchesFit(t, shape, repoName);
    segs := ParseExists(t, ms, 0);
    forall other | LeftmostParse(t, ms, 0, other) ensures other == segs {
      ParseUnique(t, ms, 0, other, segs);
    }
    ParseCovers(t, ms, 0, segs);
    assert t[0..] == t;
    SubFromIsRewrite(t, ms, 0, segs);
  }

  /** A pass that replaces nothing returns the text unchanged. */
  lemma SubnNoneUnchanged(t: string, shape: Shape, repoName: string)
    requires Subn(t, shape, repoName).1 == 0
    ensures Subn(t, shape, repoName).0 == t
  {
    var segs := SubnParse(t, shape, repoName);
    NoLinksUnchanged(segs);
  }

  /** A text that is one accepted link becomes `[caption](./LICENSE)`, counted once. */
  lemma SubnOneLink(l: Link, shape: Shape, repoName: string)
    requires WellFormed(l, shape, repoName)
    ensures Subn(Render(l), shape, repoName) == (Replacement(l), 1)
  {
    LinkFoundAtStart(l, shape, repoName);
    SubnWholeLink(Render(l), l, shape, repoName);
  }

  /** A text the match at its start covers whole is rewritten to that match's replacement. */
  lemma SubnWholeLink(t: string, l: Link, shape: Shape, repoName: string)
    requires MatchAt(t, 0, shape, repoName) == Some(l) && |Render(l)| == |t|
    ensures Subn(t, shape, repoName) == (Replacement(l), 1)
  {
    var ms := Matches(t, shape, repoName);
    MatchesFit(t, shape, repoName);
    assert ms[0] == Some(l);
    SubFromStep(t, ms, 0, Hit(l), |t|);
    assert Replacement(l) + "" == Replacement(l);
  }

  /** The matcher finds an accepted link at the start of its own rendering. */
  lemma LinkFoundAtStart(l: Link, shape: Shape, repoName: string)
    requires WellFormed(l, shape, repoName)
    ensures MatchAt(Render(l), 0, shape, repoName) == Some(l)
  {
    var t := Render(l);
    assert OccursAt(t, Render(l), 0) by { assert t[0..|t|] == t; }
    MatchAtComplete(t, 0, l, shape, repoName);
  }

  /**
   * The pattern ignores case the way Python's `re` does, so a caption that
   * spells the license word with a dotless `ı` still makes a link that is
   * converted.
   */
  lemma DotlessCaptionConverted(l: Link)
    requires l == Link("l" + [DotlessI] + "cense", UrlPart(Blob.host, TensoRaws, PathPart("R", Blob.mid, TailPart("main", "LICENSE", ""))))
    ensures WellFormed(l, Blob, "R") && Subn(Render(l), Blob, "R") == (Replacement(l), 1)
  {
    assert LicenseWordAt(l.caption, 0) by {
      assert forall m | 0 <= m < 5 :: SameFold(l.caption, 0, "licen", m);
    }
    assert AllRefChars("main") by {
      assert forall k | 0 <= k < 4 :: RefCharAt("main", k);
    }
    SubnOneLink(l, Blob, "R");
  }

  /** What `convert_license_links` returns: the new text and both passes' counts. */
  datatype Converted = Converted(text: string, blobCount: nat, rawCount: nat)

  /** The blob pass, then the raw pass over its output. */
  function ConvertLicenseLinks(text: string, repoName: string): Converted {
    var blob := Subn(text, Blob, repoName);
    var raw := Subn(blob.0, Raw, repoName);
    Converted(raw.0, blob.1, raw.1)
  }

  /**
   * `convert_license_links` in terms of the two parses: the blob pass
   * rewrites the parse of the text, the raw pass the parse of that
   * result, and the counts are how many links each parse holds.
   */
  lemma ConvertLicenseLinksParses(text: string, repoName: string) returns (blobSegs: seq<Segment>, rawSegs: seq<Segment>)
    ensures LeftmostParse(text, Matches(text, Blob, repoName), 0, blobSegs) && Original(blobSegs) == text
    ensures LeftmostParse(Rewritten(blobSegs), Matches(Rewritten(blobSegs), Raw, repoName), 0, rawSegs)
    ensures Original(rawSegs) == Rewritten(blobSegs)
    ensures ConvertLicenseLinks(text, repoName) == Converted(Rewritten(rawSegs), |Links(blobSegs)|, |Links(rawSegs)|)
  {
    blobSegs := SubnParse(text, Blob, repoName);
    rawSegs := SubnParse(Rewritten(blobSegs), Raw, repoName);
  }

  /** With nothing converted in either pass the text comes back unchanged. */
  lemma ConvertNothingUnchanged(text: string, repoName: string)
    ensures var c := ConvertLicenseLinks(text, repoName);
      c.blobCount == 0 && c.rawCount == 0 ==> c.text == text
  {
    var blob := Subn(text, Blob, repoName);
    if blob.1 == 0 {
      SubnNoneUnchanged(text, Blob, repoName);
      if Subn(blob.0, Raw, repoName).1 == 0 {
        SubnNoneUnchanged(blob.0, Raw, repoName);
      }
    }
  }
}
