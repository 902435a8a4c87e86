/**
 * `extract_resource`: reading a Kaggle URL as a dataset (`owner/name`) or a competition
 * (its slug). The URL is stripped, its query and fragment are dropped, its trailing
 * slashes removed, and then the markers `/datasets/`, `/competitions/` and `/c/` are
 * tried in that order.
 */
module KaggleResource {
  import opened Wrappers
  import opened Strings

  /** The dict `{"type": ..., "id": ...}` the function returns. */
  datatype Resource = Dataset(id: string) | Competition(id: string)

  /** The two URLParseError cases. */
  datatype UrlError = NotNonEmptyString | InvalidFormat(url: string)

  function Message(e: UrlError): string {
    match e
    case NotNonEmptyString => "URL must be a non-empty string"
    case InvalidFormat(url) => "Invalid Kaggle URL format: " + url
  }

  const DatasetsMarker := "/datasets/"
  const CompetitionsMarker := "/competitions/"
  const ShortMarker := "/c/"

  /** `url.strip().split("?")[0].split("#")[0].rstrip("/")` */
  function Clean(url: string): (r: string)
    ensures '?' !in r && '#' !in r
    ensures r == [] || r[|r| - 1] != '/'
  {
    RStripChar(Before(Before(Strip(url), '?'), '#'), '/')
  }

  /**
   * The marker tests on a cleaned URL. A dataset needs at least two `/`-separated parts
   * after the last `/datasets/`; otherwise the competition markers are tried.
   */
  function Classify(url: string): Result<Resource, UrlError> {
    var parts := SplitOn(LastPiece(url, DatasetsMarker), '/');
    if Contains(url, DatasetsMarker) && |parts| >= 2 then
      Ok(Dataset(parts[0] + "/" + parts[1]))
    else if Contains(url, CompetitionsMarker) then
      Ok(Competition(Before(LastPiece(url, CompetitionsMarker), '/')))
    else if Contains(url, ShortMarker) then
      Ok(Competition(Before(LastPiece(url, ShortMarker), '/')))
    else
      Err(InvalidFormat(url))
  }

  /** `extract_resource(url)`; `None` stands for Python's `None` and for any argument that is not a string. */
  function Extract(url: Option<string>): Result<Resource, UrlError> {
    match url
    case None => Err(NotNonEmptyString)
    case Some(u) => if u == [] then Err(NotNonEmptyString) else Classify(Clean(u))
  }

  /**
   * A dataset is reported exactly when `/datasets/` occurs and is followed by at least two
   * parts; its id is `owner/name`, with one `/`. A competition id has no `/`. Failing all
   * three markers, the error carries the URL.
   */
  lemma ClassifyShape(url: string)
    ensures var r := Classify(url);
      (r.Ok? && r.value.Dataset? <==>
        Contains(url, DatasetsMarker) && '/' in LastPiece(url, DatasetsMarker))
      && (r.Ok? && r.value.Dataset? ==>
        var k := Find(r.value.id, '/', 0); k < |r.value.id| && '/' !in r.value.id[k + 1..])
      && (r.Ok? && r.value.Competition? ==>
        '/' !in r.value.id && (Contains(url, CompetitionsMarker) || Contains(url, ShortMarker)))
      && (r.Err? <==>
        !Contains(url, CompetitionsMarker) && !Contains(url, ShortMarker)
        && (Contains(url, DatasetsMarker) ==> '/' !in LastPiece(url, DatasetsMarker)))
      && (r.Err? ==> r.error == InvalidFormat(url))
  {
    var tail := LastPiece(url, DatasetsMarker);
    SplitOnSingle(tail, '/');
    if |SplitOn(tail, '/')| >= 2 {
      DatasetId(tail);
    }
  }

  /** A missing, non-string or empty argument is the first error; any other failure names the cleaned URL. */
  lemma ExtractErrors(url: Option<string>)
    ensures Extract(url) == Err(NotNonEmptyString) <==> url.None? || url.value == []
    ensures Extract(url).Err? && Extract(url).error.InvalidFormat? ==>
      url.Some? && Extract(url).error.url == Clean(url.value)
  {
    if url.Some? && url.value != [] {
      ClassifyShape(Clean(url.value));
    }
  }

  /** The message raised: the fixed text for a missing or empty argument, otherwise the cleaned URL behind the fixed prefix. */
  lemma ExtractMessage(url: Option<string>)
    requires Extract(url).Err?
    ensures url.None? || url.value == [] ==> Message(Extract(url).error) == "URL must be a non-empty string"
    ensures url.Some? && url.value != [] ==> Message(Extract(url).error) == "Invalid Kaggle URL format: " + Clean(url.value)
  {
    ExtractErrors(url);
  }

  /** Once cleaning leaves the URL as it is, the markers decide. */
  lemma ExtractPlain(u: string)
    requires u != [] && Clean(u) == u
    ensures Extract(Some(u)) == Classify(u)
  {
  }

  /* ---------------------------------------------------------------------------------- */
  /* Splitting at `/`                                                                   */
  /* ---------------------------------------------------------------------------------- */

  /** A text without the separator splits into itself alone. */
  lemma SplitOnSingle(s: string, sep: char)
    ensures sep !in s <==> |SplitOn(s, sep)| == 1
    ensures sep !in s ==> SplitOn(s, sep) == [s]
  {
    JoinSplitOn(s, sep);
    if sep !in s {
      SplitOnJoin([s], sep);
    } else {
      var parts := SplitOn(s, sep);
      assert |parts| != 1;
    }
  }

  /** The id built from the first two `/`-separated parts holds exactly one `/`. */
  lemma DatasetId(tail: string)
    requires |SplitOn(tail, '/')| >= 2
    ensures var parts := SplitOn(tail, '/');
      var id := parts[0] + "/" + parts[1];
      var k := Find(id, '/', 0);
      k == |parts[0]| && k < |id| && '/' !in id[k + 1..]
  {
    var parts := SplitOn(tail, '/');
    assert parts[0] in parts && parts[1] in parts;
    var id := parts[0] + "/" + parts[1];
    assert forall q :: 0 <= q < |parts[0]| ==> id[q] == parts[0][q];
    assert id[|parts[0]|] == '/';
    assert id[|parts[0]| + 1..] == parts[1];
  }

  /* ---------------------------------------------------------------------------------- */
  /* Where a marker can occur                                                           */
  /* ---------------------------------------------------------------------------------- */

  /** A marker is `/`, a word without `/` beginning with `c` or `d`, and `/`. */
  predicate Marker(m: string) {
    |m| >= 3 && m[0] == '/' && (m[1] == 'c' || m[1] == 'd') && m[|m| - 1] == '/'
  }

  /** A `/` at `j` is followed, inside `p`, by a character other than `c` and `d`. */
  predicate QuietAt(p: string, j: nat)
    requires j < |p|
  {
    p[j] == '/' ==> j + 1 < |p| && p[j + 1] != 'c' && p[j + 1] != 'd'
  }

  /** No marker can start inside `p`. */
  predicate QuietPrefix(p: string) {
    forall j :: 0 <= j < |p| ==> QuietAt(p, j)
  }

  /** At most one `/` from index `i` on */
  predicate OneSlashFrom(s: string, i: nat) {
    forall a, b :: i <= a < b < |s| && s[a] == '/' ==> s[b] != '/'
  }

  /** No marker starts inside a quiet prefix. */
  lemma QuietNoEarly(p: string, t: string, m: string, j: nat)
    requires QuietPrefix(p) && Marker(m) && j < |p|
    ensures !OccursAt(p + t, m, j)
  {
    var x := p + t;
    if j + |m| <= |x| {
      MatchesSlice(x, m, j);
      var w := x[j..j + |m|];
      assert QuietAt(p, j);
      if p[j] == '/' {
        assert w[1] == p[j + 1];
      } else {
        assert w[0] == p[j];
      }
    }
  }

  /** An index found in `t`, seen in `p + t`. */
  function Shift(o: Option<nat>, d: nat): Option<nat> {
    match o
    case None => None
    case Some(k) => Some(d + k)
  }

  /** Past the prefix, the search in `p + t` is the search in `t`, shifted. */
  lemma {:induction false} ShiftFrom(p: string, t: string, m: string, i: nat)
    requires m != [] && i <= |t|
    ensures FirstOccurrence(p + t, m, |p| + i) == Shift(FirstOccurrence(t, m, i), |p|)
    decreases |t| - i
  {
    if i + |m| <= |t| {
      MatchesSlice(p + t, m, |p| + i);
      MatchesSlice(t, m, i);
      assert (p + t)[|p| + i..|p| + i + |m|] == t[i..i + |m|];
      ShiftFrom(p, t, m, i + 1);
    }
  }

  /** The search passes over a quiet prefix without a hit. */
  lemma {:induction false} QuietSkip(p: string, t: string, m: string, j: nat)
    requires QuietPrefix(p) && Marker(m) && j <= |p|
    ensures FirstOccurrence(p + t, m, j) == FirstOccurrence(p + t, m, |p|)
    decreases |p| - j
  {
    if j < |p| {
      QuietNoEarly(p, t, m, j);
      QuietSkip(p, t, m, j + 1);
    }
  }

  /** The first occurrence of a marker in `p + t` is the first one in `t`, shifted by `|p|`. */
  lemma QuietShift(p: string, t: string, m: string)
    requires QuietPrefix(p) && Marker(m)
    ensures FirstOccurrence(p + t, m, 0) == Shift(FirstOccurrence(t, m, 0), |p|)
  {
    QuietSkip(p, t, m, 0);
    ShiftFrom(p, t, m, 0);
  }

  /** Past the prefix, the last piece starts where it starts in `t`, shifted. */
  lemma {:induction false} LastStartShift(p: string, t: string, m: string, i: nat)
    requires m != [] && i <= |t|
    ensures LastStart(p + t, m, |p| + i) == |p| + LastStart(t, m, i)
    decreases |t| - i
  {
    ShiftFrom(p, t, m, i);
    match FirstOccurrence(t, m, i)
    case None =>
    case Some(q) =>
      LastStartShift(p, t, m, q + |m|);
  }

  /** After a quiet prefix, the last piece is the one of `t`. */
  lemma QuietLastPiece(p: string, t: string, m: string)
    requires QuietPrefix(p) && Marker(m) && Contains(t, m)
    ensures LastPiece(p + t, m) == LastPiece(t, m)
  {
    QuietShift(p, t, m);
    var k := FirstOccurrence(t, m, 0).value;
    LastStartShift(p, t, m, k + |m|);
    var s := LastStart(t, m, k + |m|);
    assert LastStart(t, m, 0) == s;
    assert LastStart(p + t, m, 0) == |p| + s;
    assert (p + t)[|p| + s..] == t[s..];
  }

  /** A marker needs two `/`, so it does not occur where at most one is left. */
  lemma {:induction false} NoMarkerFrom(s: string, m: string, i: nat)
    requires Marker(m) && OneSlashFrom(s, i)
    ensures FirstOccurrence(s, m, i).None?
    decreases |s| - i
  {
    if i + |m| <= |s| {
      MatchesSlice(s, m, i);
      assert s[i..i + |m|] != m;
      NoMarkerFrom(s, m, i + 1);
    }
  }

  /** `/w2/` followed by a slug without `/` holds no marker `/w/` of another length. */
  lemma {:induction false} NoOtherMarker(w: string, w2: string, slug: string, j: nat)
    requires Marker("/" + w + "/") && '/' !in w && '/' !in w2 && '/' !in slug && |w| != |w2|
    ensures FirstOccurrence("/" + w2 + "/" + slug, "/" + w + "/", j).None?
    decreases |"/" + w2 + "/" + slug| - j
  {
    var x := "/" + w2 + "/" + slug;
    var m := "/" + w + "/";
    if j + |m| <= |x| {
      MatchesSlice(x, m, j);
      assert x[j..j + |m|] != m;
      NoOtherMarker(w, w2, slug, j + 1);
    }
  }

  /* ---------------------------------------------------------------------------------- */
  /* Cleaning                                                                           */
  /* ---------------------------------------------------------------------------------- */

  /** Nothing to drop from a stripped URL without query, fragment or trailing slash. */
  lemma CleanOfPlain(u: string)
    requires Stripped(u) && '?' !in u && '#' !in u && (u == [] || u[|u| - 1] != '/')
    ensures Clean(u) == u
  {
    StripOfStripped(u);
    BeforeAbsent(u, '?');
    BeforeAbsent(u, '#');
  }

  lemma BeforeAbsent(s: string, c: char)
    requires c !in s
    ensures Before(s, c) == s
  {
  }

  /** `split(c)[0]` skips a prefix without `c`. */
  lemma BeforeAppend(x: string, y: string, c: char)
    requires c !in x
    ensures Before(x + y, c) == x + Before(y, c)
  {
    var s := x + y;
    var k := Find(y, c, 0);
    assert forall q :: 0 <= q < |x| ==> s[q] == x[q];
    assert forall q :: |x| <= q < |x| + k ==> s[q] == y[q - |x|];
    assert |x| + k < |s| ==> s[|x| + k] == c;
    assert Find(s, c, 0) == |x| + k;
    assert s[..|x| + k] == x + y[..k];
  }

  /** Whitespace around the URL does not matter. */
  lemma SurroundingSpaceIgnored(w1: string, u: string, w2: string)
    requires AllSpace(w1) && AllSpace(w2) && Stripped(u) && u != []
    ensures Extract(Some(w1 + u + w2)) == Extract(Some(u))
  {
    StripSpaceAround(w1, u, w2);
    StripOfStripped(u);
  }

  /** A query string does not matter. */
  lemma QueryIgnored(u: string, q: string)
    requires Stripped(u) && u != [] && '?' !in u
    requires q == [] || !IsSpace(q[|q| - 1])
    ensures Extract(Some(u + "?" + q)) == Extract(Some(u))
  {
    var x := u + "?" + q;
    assert x[0] == u[0];
    StripOfStripped(x);
    StripOfStripped(u);
    BeforeAppend(u, "?" + q, '?');
    assert x == u + ("?" + q);
    assert Before("?" + q, '?') == [];
    BeforeAbsent(u, '?');
  }

  /** A fragment does not matter. */
  lemma FragmentIgnored(u: string, f: string)
    requires Stripped(u) && u != [] && '?' !in u && '#' !in u
    requires f == [] || !IsSpace(f[|f| - 1])
    ensures Extract(Some(u + "#" + f)) == Extract(Some(u))
  {
    var x := u + "#" + f;
    assert x == u + ("#" + f);
    assert x[0] == u[0];
    StripOfStripped(x);
    StripOfStripped(u);
    BeforeAppend(u, "#" + f, '?');
    BeforeAppend("#", f, '?');
    var y := u + ("#" + Before(f, '?'));
    BeforeAppend(u, "#" + Before(f, '?'), '#');
    assert Before("#" + Before(f, '?'), '#') == [];
    BeforeAbsent(u, '?');
    BeforeAbsent(u, '#');
  }

  /** A trailing slash does not matter. */
  lemma TrailingSlashIgnored(u: string)
    requires Stripped(u) && u != [] && '?' !in u && '#' !in u
    ensures Extract(Some(u + "/")) == Extract(Some(u))
  {
    var x := u + "/";
    assert x[0] == u[0];
    StripOfStripped(x);
    StripOfStripped(u);
    BeforeAbsent(x, '?');
    BeforeAbsent(x, '#');
    BeforeAbsent(u, '?');
    BeforeAbsent(u, '#');
    assert x[..|x| - 1] == u;
  }

  /* ---------------------------------------------------------------------------------- */
  /* The URL shapes                                                                     */
  /* ---------------------------------------------------------------------------------- */

  /** A site such as `https://www.kaggle.com`: no query, fragment or marker of its own. */
  predicate SiteBase(p: string) {
    p != [] && !IsSpace(p[0]) && '?' !in p && '#' !in p && QuietPrefix(p)
  }

  /** One path segment: non-empty, with no `/`, `?`, `#` or whitespace. */
  predicate Segment(s: string) {
    s != [] && forall k :: 0 <= k < |s| ==> s[k] != '/' && s[k] != '?' && s[k] != '#' && !IsSpace(s[k])
  }

  /** `https:` + `//` + a host without `/` that does not begin with `c` or `d` is a site. */
  lemma SchemeHost(scheme: string, host: string)
    requires scheme != [] && !IsSpace(scheme[0]) && '/' !in scheme && '/' !in host
    requires '?' !in scheme + host && '#' !in scheme + host
    requires host != [] && host[0] != 'c' && host[0] != 'd'
    ensures SiteBase(scheme + "//" + host)
  {
    var p := scheme + "//" + host;
    assert forall j :: 0 <= j < |scheme| ==> p[j] == scheme[j];
    assert forall j :: |scheme| + 2 <= j < |p| ==> p[j] == host[j - |scheme| - 2];
    assert p[|scheme|] == '/' && p[|scheme| + 1] == '/' && p[|scheme| + 2] == host[0];
    assert forall j :: 0 <= j < |p| ==> QuietAt(p, j);
  }

  /** The site Kaggle's URLs are written on. */
  lemma KaggleSite()
    ensures SiteBase("https://www.kaggle.com")
  {
    SchemeHost("https:", "www.kaggle.com");
    assert "https:" + "//" + "www.kaggle.com" == "https://www.kaggle.com";
  }

  /** A site followed by a path without query, fragment, or trailing whitespace or `/` is clean already. */
  lemma PlainUrl(p: string, rest: string)
    requires SiteBase(p) && rest != [] && '?' !in rest && '#' !in rest
    requires !IsSpace(rest[|rest| - 1]) && rest[|rest| - 1] != '/'
    ensures Clean(p + rest) == p + rest
  {
    var x := p + rest;
    assert x[0] == p[0] && x[|x| - 1] == rest[|rest| - 1];
    CleanOfPlain(x);
  }

  /** The markers, written as `/`, a word and `/`. */
  lemma MarkerWords()
    ensures DatasetsMarker == "/" + "datasets" + "/" && Marker(DatasetsMarker)
    ensures CompetitionsMarker == "/" + "competitions" + "/" && Marker(CompetitionsMarker)
    ensures ShortMarker == "/" + "c" + "/" && Marker(ShortMarker)
    ensures '/' !in "datasets" && '/' !in "competitions" && '/' !in "c"
    ensures '?' !in DatasetsMarker && '?' !in CompetitionsMarker && '?' !in ShortMarker
    ensures '#' !in DatasetsMarker && '#' !in CompetitionsMarker && '#' !in ShortMarker
  {
  }

  /** A site, a marker and a clean rest make a clean URL. */
  lemma PlainPath(p: string, m: string, s: string)
    requires SiteBase(p) && '?' !in m && '#' !in m
    requires s != [] && '?' !in s && '#' !in s && !IsSpace(s[|s| - 1]) && s[|s| - 1] != '/'
    ensures Clean(p + (m + s)) == p + (m + s)
  {
    var r := m + s;
    assert r[|r| - 1] == s[|s| - 1];
    PlainUrl(p, r);
  }

  /** A text that begins with a marker finds it at once. */
  lemma MarkerFirst(m: string, rest: string)
    ensures FirstOccurrence(m + rest, m, 0) == Some(0)
  {
    MatchesSlice(m + rest, m, 0);
    assert (m + rest)[0..|m|] == m;
  }

  /** Behind a marker that opens the text and no further `/` pairs, the last piece is what follows the marker. */
  lemma LastPieceAfterMarker(m: string, rest: string)
    requires Marker(m) && OneSlashFrom(m + rest, |m|)
    ensures LastPiece(m + rest, m) == rest
  {
    MarkerFirst(m, rest);
    NoMarkerFrom(m + rest, m, |m|);
    assert LastStart(m + rest, m, |m|) == |m|;
    assert LastStart(m + rest, m, 0) == |m|;
    assert (m + rest)[|m|..] == rest;
  }

  /** What follows a segment: nothing, or `/` and more. */
  predicate SegmentEnd(rest: string) {
    rest == [] || rest[0] == '/'
  }

  /** The piece before the first `/` of `a` + `rest` is `a`. */
  lemma BeforeSegment(a: string, rest: string)
    requires '/' !in a && SegmentEnd(rest)
    ensures Before(a + rest, '/') == a
  {
    BeforeAppend(a, rest, '/');
  }

  /** Splitting at `/` after a first piece `a`: `a`, then the pieces of the rest. */
  lemma SplitOnHead(a: string, b: string)
    requires '/' !in a
    ensures SplitOn(a + "/" + b, '/') == [a] + SplitOn(b, '/')
  {
    SplitOnFromPlain(a, "/" + b, '/', []);
    assert a + "/" + b == a + ("/" + b);
    assert ("/" + b)[0] == '/' && ("/" + b)[1..] == b;
    assert [] + a == a;
  }

  /** The first piece of a split of `a` + `rest`, when `rest` is empty or starts a new piece. */
  lemma SplitOnFirst(a: string, rest: string)
    requires '/' !in a && SegmentEnd(rest)
    ensures SplitOn(a + rest, '/')[0] == a
  {
    if rest == [] {
      assert a + rest == a;
      SplitOnSingle(a, '/');
    } else {
      assert a + rest == a + "/" + rest[1..];
      SplitOnHead(a, rest[1..]);
    }
  }

  /**
   * The dataset branch: when the last piece after `/datasets/` starts with `owner/name`,
   * whatever segments follow, the id is `owner/name`.
   */
  lemma ClassifyDataset(url: string, owner: string, name: string, rest: string)
    requires Contains(url, DatasetsMarker) && '/' !in owner && '/' !in name && SegmentEnd(rest)
    requires LastPiece(url, DatasetsMarker) == owner + "/" + name + rest
    ensures Classify(url) == Ok(Dataset(owner + "/" + name))
  {
    assert owner + "/" + name + rest == owner + "/" + (name + rest);
    SplitOnHead(owner, name + rest);
    SplitOnFirst(name, rest);
  }

  /** The dataset test falls through: `/datasets/` is absent, or followed by fewer than two parts. */
  predicate NoDatasetId(url: string) {
    Contains(url, DatasetsMarker) ==> '/' !in LastPiece(url, DatasetsMarker)
  }

  /**
   * The competition branch: once the dataset test falls through, the id is the first segment
   * of the last piece after `/competitions/`, whatever follows it.
   */
  lemma ClassifyCompetition(url: string, slug: string, rest: string)
    requires NoDatasetId(url) && Contains(url, CompetitionsMarker) && '/' !in slug && SegmentEnd(rest)
    requires LastPiece(url, CompetitionsMarker) == slug + rest
    ensures Classify(url) == Ok(Competition(slug))
  {
    SplitOnSingle(LastPiece(url, DatasetsMarker), '/');
    BeforeSegment(slug, rest);
  }

  /** The `/c/` branch: with no dataset id and no `/competitions/`, the first segment after the last `/c/`. */
  lemma ClassifyShort(url: string, slug: string, rest: string)
    requires NoDatasetId(url) && !Contains(url, CompetitionsMarker)
    requires Contains(url, ShortMarker) && '/' !in slug && SegmentEnd(rest)
    requires LastPiece(url, ShortMarker) == slug + rest
    ensures Classify(url) == Ok(Competition(slug))
  {
    SplitOnSingle(LastPiece(url, DatasetsMarker), '/');
    BeforeSegment(slug, rest);
  }

  /** Slashes of `rest` counted behind a marker. */
  lemma OneSlashTail(m: string, rest: string)
    requires OneSlashFrom(rest, 0)
    ensures OneSlashFrom(m + rest, |m|)
  {
    assert forall q :: |m| <= q < |m + rest| ==> (m + rest)[q] == rest[q - |m|];
  }

  /** A site followed by a marker and a rest with at most one `/`: the marker is found and the rest is the last piece. */
  lemma MarkerUrl(p: string, m: string, rest: string)
    requires QuietPrefix(p) && Marker(m) && OneSlashFrom(rest, 0)
    ensures Contains(p + (m + rest), m) && LastPiece(p + (m + rest), m) == rest
  {
    OneSlashTail(m, rest);
    MarkerFirst(m, rest);
    QuietShift(p, m + rest, m);
    LastPieceAfterMarker(m, rest);
    QuietLastPiece(p, m + rest, m);
  }

  /** A marker absent from `t` is absent behind a site too. */
  lemma AbsentUrl(p: string, m: string, t: string)
    requires QuietPrefix(p) && Marker(m) && !Contains(t, m)
    ensures !Contains(p + t, m)
  {
    QuietShift(p, t, m);
  }

  /** The path of a dataset URL, read after cleaning. */
  lemma DatasetPath(p: string, owner: string, name: string)
    requires SiteBase(p) && Segment(owner) && Segment(name)
    ensures var x := p + (DatasetsMarker + (owner + "/" + name));
      Clean(x) == x && Classify(x) == Ok(Dataset(owner + "/" + name))
  {
    MarkerWords();
    var tail := owner + "/" + name;
    assert OneSlashFrom(tail, 0) by {
      assert forall q :: 0 <= q < |tail| && tail[q] == '/' ==> q == |owner|;
    }
    MarkerUrl(p, DatasetsMarker, tail);
    assert tail[|tail| - 1] == name[|name| - 1];
    PlainPath(p, DatasetsMarker, tail);
    assert tail + [] == tail;
    ClassifyDataset(p + (DatasetsMarker + tail), owner, name, []);
  }

  /** `<site>/datasets/<owner>/<name>` is the dataset `owner/name`. */
  lemma DatasetUrl(p: string, owner: string, name: string)
    requires SiteBase(p) && Segment(owner) && Segment(name)
    ensures Extract(Some(p + DatasetsMarker + owner + "/" + name)) == Ok(Dataset(owner + "/" + name))
  {
    DatasetPath(p, owner, name);
    Regroup(p, DatasetsMarker, owner + "/" + name);
    Regroup(p + DatasetsMarker, owner, "/" + name);
    Regroup(p + DatasetsMarker + owner, "/", name);
    Regroup(owner, "/", name);
    ExtractPlain(p + (DatasetsMarker + (owner + "/" + name)));
  }

  /** The path of a competition URL, read after cleaning. */
  lemma CompetitionPath(p: string, slug: string)
    requires SiteBase(p) && Segment(slug)
    ensures var x := p + (CompetitionsMarker + slug);
      Clean(x) == x && Classify(x) == Ok(Competition(slug))
  {
    MarkerWords();
    NoOtherMarker("datasets", "competitions", slug, 0);
    AbsentUrl(p, DatasetsMarker, CompetitionsMarker + slug);
    MarkerUrl(p, CompetitionsMarker, slug);
    PlainPath(p, CompetitionsMarker, slug);
    assert slug + [] == slug;
    ClassifyCompetition(p + (CompetitionsMarker + slug), slug, []);
  }

  /** `<site>/competitions/<slug>` is the competition `slug`. */
  lemma CompetitionUrl(p: string, slug: string)
    requires SiteBase(p) && Segment(slug)
    ensures Extract(Some(p + CompetitionsMarker + slug)) == Ok(Competition(slug))
  {
    CompetitionPath(p, slug);
    Regroup(p, CompetitionsMarker, slug);
    ExtractPlain(p + (CompetitionsMarker + slug));
  }

  /** The path of a short competition URL, read after cleaning. */
  lemma ShortCompetitionPath(p: string, slug: string)
    requires SiteBase(p) && Segment(slug)
    ensures var x := p + (ShortMarker + slug);
      Clean(x) == x && Classify(x) == Ok(Competition(slug))
  {
    MarkerWords();
    NoOtherMarker("datasets", "c", slug, 0);
    AbsentUrl(p, DatasetsMarker, ShortMarker + slug);
    NoOtherMarker("competitions", "c", slug, 0);
    AbsentUrl(p, CompetitionsMarker, ShortMarker + slug);
    MarkerUrl(p, ShortMarker, slug);
    PlainPath(p, ShortMarker, slug);
    assert slug + [] == slug;
    ClassifyShort(p + (ShortMarker + slug), slug, []);
  }

  /** `<site>/c/<slug>` is the competition `slug` too. */
  lemma ShortCompetitionUrl(p: string, slug: string)
    requires SiteBase(p) && Segment(slug)
    ensures Extract(Some(p + ShortMarker + slug)) == Ok(Competition(slug))
  {
    ShortCompetitionPath(p, slug);
    Regroup(p, ShortMarker, slug);
    ExtractPlain(p + (ShortMarker + slug));
  }

  /** `<site>/<segment>` names no resource and is rejected with the cleaned URL. */
  lemma OtherUrl(p: string, segment: string)
    requires SiteBase(p) && Segment(segment)
    ensures Extract(Some(p + "/" + segment)) == Err(InvalidFormat(p + "/" + segment))
  {
    MarkerWords();
    var t := "/" + segment;
    assert OneSlashFrom(t, 0);
    NoMarkerFrom(t, DatasetsMarker, 0);
    NoMarkerFrom(t, CompetitionsMarker, 0);
    NoMarkerFrom(t, ShortMarker, 0);
    AbsentUrl(p, DatasetsMarker, t);
    AbsentUrl(p, CompetitionsMarker, t);
    AbsentUrl(p, ShortMarker, t);
    PlainUrl(p, t);
    assert p + "/" + segment == p + t;
    ExtractPlain(p + t);
  }

  /* ---------------------------------------------------------------------------------- */
  /* Pages below a resource                                                             */
  /* ---------------------------------------------------------------------------------- */

  /** The search for a `/`-led text passes over characters other than `/`. */
  lemma {:induction false} SkipPlain(s: string, m: string, i: nat, k: nat)
    requires m != [] && m[0] == '/' && i <= k <= |s|
    requires forall q :: i <= q < k ==> s[q] != '/'
    ensures FirstOccurrence(s, m, i) == FirstOccurrence(s, m, k)
    decreases k - i
  {
    if i < k {
      if i + |m| <= |s| {
        assert !MatchesAt(s, m, i);
      }
      SkipPlain(s, m, i + 1, k);
    }
  }

  /** In `/a` + `t`, with `t` opening with `/`, the second `/` is the one after `a`. */
  lemma SlashAfterWord(a: string, t: string)
    requires '/' !in a && t != [] && t[0] == '/'
    ensures Find("/" + a + t, '/', 1) == |a| + 1
  {
    var x := "/" + a + t;
    assert x[|a| + 1] == '/';
    assert forall q :: 1 <= q < |a| + 1 ==> x[q] == a[q - 1];
    FindAt(x, '/', 1, |a| + 1);
  }

  /** A `/` found inside a prefix is found at the same place in the whole text. */
  lemma {:induction false} FindPrefix(x: string, m: string, c: char, i: nat)
    requires |m| <= |x| && x[..|m|] == m && i <= |m| && Find(m, c, i) < |m|
    ensures Find(x, c, i) == Find(m, c, i)
    decreases |m| - i
  {
    assert x[i] == m[i];
    if m[i] != c {
      FindPrefix(x, m, c, i + 1);
    }
  }

  /** `/w/` matches where `/a/` stands only when `w` is `a`. */
  lemma WordMatch(w: string, a: string, t: string)
    requires '/' !in w && '/' !in a && t != [] && t[0] == '/'
    ensures OccursAt("/" + a + t, "/" + w + "/", 0) ==> w == a
  {
    var x := "/" + a + t;
    var m := "/" + w + "/";
    if OccursAt(x, m, 0) {
      MatchesSlice(x, m, 0);
      SlashAfterWord(a, t);
      SlashAfterWord(w, "/");
      FindPrefix(x, m, '/', 1);
      assert w == m[1..|w| + 1] == x[1..|a| + 1] == a;
    }
  }

  /** The search in `/a` + `t` starts over at `t`, shifted, when nothing matches before it. */
  lemma SkipWord(a: string, t: string, m: string)
    requires m != [] && m[0] == '/' && '/' !in a && !OccursAt("/" + a + t, m, 0)
    ensures FirstOccurrence("/" + a + t, m, 0) == Shift(FirstOccurrence(t, m, 0), |a| + 1)
  {
    var x := "/" + a + t;
    assert FirstOccurrence(x, m, 0) == FirstOccurrence(x, m, 1);
    assert forall q :: 1 <= q < |a| + 1 ==> x[q] == a[q - 1];
    SkipPlain(x, m, 1, |a| + 1);
    assert x == ("/" + a) + t;
    ShiftFrom("/" + a, t, m, 0);
  }

  /** Past `/a`, with `a` not the marker's word, the search for `/w/` is the search in the rest. */
  lemma WordSkip(w: string, a: string, t: string)
    requires '/' !in w && '/' !in a && w != a && t != [] && t[0] == '/'
    ensures FirstOccurrence("/" + a + t, "/" + w + "/", 0) == Shift(FirstOccurrence(t, "/" + w + "/", 0), |a| + 1)
  {
    WordMatch(w, a, t);
    SkipWord(a, t, "/" + w + "/");
  }

  /** A single segment behind a `/` holds no marker. */
  lemma LastSegmentQuiet(m: string, seg: string)
    requires Marker(m) && Segment(seg)
    ensures FirstOccurrence("/" + seg, m, 0).None?
  {
    assert OneSlashFrom("/" + seg, 0);
    NoMarkerFrom("/" + seg, m, 0);
  }

  /** A marker that opens the text and does not come back: the last piece is what follows it. */
  lemma LastPieceOnce(m: string, rest: string)
    requires Marker(m) && FirstOccurrence(m + rest, m, |m|).None?
    ensures LastPiece(m + rest, m) == rest
  {
    MarkerFirst(m, rest);
    assert LastStart(m + rest, m, |m|) == |m|;
    assert LastStart(m + rest, m, 0) == |m|;
    assert (m + rest)[|m|..] == rest;
  }

  /** `/competitions/<slug>/<page>` does not hold `/datasets/` unless the slug is `datasets`. */
  lemma CompetitionPageNoDatasets(slug: string, page: string)
    requires Segment(slug) && Segment(page) && slug != "datasets"
    ensures !Contains(CompetitionsMarker + (slug + "/" + page), DatasetsMarker)
  {
    MarkerWords();
    var t := "/" + slug + ("/" + page);
    assert CompetitionsMarker + (slug + "/" + page) == "/" + "competitions" + t;
    WordSkip("datasets", "competitions", t);
    WordSkip("datasets", slug, "/" + page);
    LastSegmentQuiet(DatasetsMarker, page);
  }

  /** The path of a competition page, read after cleaning. */
  lemma CompetitionPagePath(p: string, slug: string, page: string)
    requires SiteBase(p) && Segment(slug) && Segment(page) && slug != "datasets"
    ensures var x := p + (CompetitionsMarker + (slug + ("/" + page)));
      Clean(x) == x && Classify(x) == Ok(Competition(slug))
  {
    MarkerWords();
    var rest := slug + ("/" + page);
    assert OneSlashFrom(rest, 0) by {
      assert forall q :: 0 <= q < |rest| && rest[q] == '/' ==> q == |slug|;
    }
    MarkerUrl(p, CompetitionsMarker, rest);
    assert rest == slug + "/" + page;
    CompetitionPageNoDatasets(slug, page);
    AbsentUrl(p, DatasetsMarker, CompetitionsMarker + rest);
    assert rest[|rest| - 1] == page[|page| - 1];
    PlainPath(p, CompetitionsMarker, rest);
    ClassifyCompetition(p + (CompetitionsMarker + rest), slug, "/" + page);
  }

  /**
   * `<site>/competitions/<slug>/<page>` is the competition `slug`: only the first segment
   * after the marker is the id.
   */
  lemma CompetitionPageUrl(p: string, slug: string, page: string)
    requires SiteBase(p) && Segment(slug) && Segment(page) && slug != "datasets"
    ensures Extract(Some(p + CompetitionsMarker + slug + "/" + page)) == Ok(Competition(slug))
  {
    CompetitionPagePath(p, slug, page);
    Regroup(p + CompetitionsMarker + slug, "/", page);
    Regroup(p + CompetitionsMarker, slug, "/" + page);
    Regroup(p, CompetitionsMarker, slug + ("/" + page));
    ExtractPlain(p + (CompetitionsMarker + (slug + ("/" + page))));
  }

  /** `/c/<slug>/<page>` holds neither longer marker unless the slug is that marker's word. */
  lemma ShortPageNoOther(slug: string, page: string)
    requires Segment(slug) && Segment(page) && slug != "datasets" && slug != "competitions"
    ensures !Contains(ShortMarker + (slug + "/" + page), DatasetsMarker)
    ensures !Contains(ShortMarker + (slug + "/" + page), CompetitionsMarker)
  {
    MarkerWords();
    var t := "/" + slug + ("/" + page);
    assert ShortMarker + (slug + "/" + page) == "/" + "c" + t;
    WordSkip("datasets", "c", t);
    WordSkip("datasets", slug, "/" + page);
    LastSegmentQuiet(DatasetsMarker, page);
    WordSkip("competitions", "c", t);
    WordSkip("competitions", slug, "/" + page);
    LastSegmentQuiet(CompetitionsMarker, page);
  }

  /** The path of a short competition page, read after cleaning. */
  lemma ShortPagePath(p: string, slug: string, page: string)
    requires SiteBase(p) && Segment(slug) && Segment(page) && slug != "datasets" && slug != "competitions"
    ensures var x := p + (ShortMarker + (slug + ("/" + page)));
      Clean(x) == x && Classify(x) == Ok(Competition(slug))
  {
    MarkerWords();
    var rest := slug + ("/" + page);
    assert OneSlashFrom(rest, 0) by {
      assert forall q :: 0 <= q < |rest| && rest[q] == '/' ==> q == |slug|;
    }
    MarkerUrl(p, ShortMarker, rest);
    assert rest == slug + "/" + page;
    ShortPageNoOther(slug, page);
    AbsentUrl(p, DatasetsMarker, ShortMarker + rest);
    AbsentUrl(p, CompetitionsMarker, ShortMarker + rest);
    assert rest[|rest| - 1] == page[|page| - 1];
    PlainPath(p, ShortMarker, rest);
    ClassifyShort(p + (ShortMarker + rest), slug, "/" + page);
  }

  /** `<site>/c/<slug>/<page>` is the competition `slug` as well. */
  lemma ShortPageUrl(p: string, slug: string, page: string)
    requires SiteBase(p) && Segment(slug) && Segment(page) && slug != "datasets" && slug != "competitions"
    ensures Extract(Some(p + ShortMarker + slug + "/" + page)) == Ok(Competition(slug))
  {
    ShortPagePath(p, slug, page);
    Regroup(p + ShortMarker + slug, "/", page);
    Regroup(p + ShortMarker, slug, "/" + page);
    Regroup(p, ShortMarker, slug + ("/" + page));
    ExtractPlain(p + (ShortMarker + (slug + ("/" + page))));
  }

  /** `/datasets/` does not come back in `<owner>/<name>/<more>` unless the name is `datasets`. */
  lemma DatasetPageOnce(owner: string, name: string, more: string)
    requires Segment(owner) && Segment(name) && Segment(more) && name != "datasets"
    ensures var rest := owner + "/" + name + "/" + more;
      FirstOccurrence(DatasetsMarker + rest, DatasetsMarker, |DatasetsMarker|).None?
  {
    var t := "/" + name + ("/" + more);
    assert DatasetsMarker + (owner + "/" + name + "/" + more) == DatasetsMarker + owner + t;
    MarkerWords();
    OwnerSkipped(DatasetsMarker, owner, t);
    DatasetTailQuiet(name, more);
  }

  /** After a marker, the search for it passes over a segment without `/`. */
  lemma OwnerSkipped(m: string, owner: string, t: string)
    requires m != [] && m[0] == '/' && forall q :: 0 <= q < |owner| ==> owner[q] != '/'
    ensures FirstOccurrence(m + owner + t, m, |m|) == Shift(FirstOccurrence(t, m, 0), |m| + |owner|)
  {
    var x := m + owner + t;
    assert forall q :: |m| <= q < |m| + |owner| ==> x[q] == owner[q - |m|];
    SkipPlain(x, m, |m|, |m| + |owner|);
    ShiftFrom(m + owner, t, m, 0);
  }

  /** `/<name>/<more>` holds no `/datasets/` unless the name is `datasets`. */
  lemma DatasetTailQuiet(name: string, more: string)
    requires Segment(name) && Segment(more) && name != "datasets"
    ensures FirstOccurrence("/" + name + ("/" + more), DatasetsMarker, 0).None?
  {
    MarkerWords();
    WordSkip("datasets", name, "/" + more);
    LastSegmentQuiet(DatasetsMarker, more);
  }

  /** The path of a dataset page, read after cleaning. */
  lemma DatasetPagePath(p: string, owner: string, name: string, more: string)
    requires SiteBase(p) && Segment(owner) && Segment(name) && Segment(more) && name != "datasets"
    ensures var x := p + (DatasetsMarker + (owner + "/" + name + "/" + more));
      Clean(x) == x && Classify(x) == Ok(Dataset(owner + "/" + name))
  {
    DatasetPageClean(p, owner, name, more);
    DatasetPageLast(p, owner, name, more);
    var rest := owner + "/" + name + "/" + more;
    Regroup(owner + "/" + name, "/", more);
    assert '/' !in owner && '/' !in name;
    ClassifyDataset(p + (DatasetsMarker + rest), owner, name, "/" + more);
  }

  /** Cleaning leaves the URL of a dataset page as it is. */
  lemma DatasetPageClean(p: string, owner: string, name: string, more: string)
    requires SiteBase(p) && Segment(owner) && Segment(name) && Segment(more)
    ensures var x := p + (DatasetsMarker + (owner + "/" + name + "/" + more));
      Clean(x) == x
  {
    MarkerWords();
    var rest := owner + "/" + name + "/" + more;
    assert rest[|rest| - 1] == more[|more| - 1];
    PlainPath(p, DatasetsMarker, rest);
  }

  /** The last piece after `/datasets/` in a dataset page URL is everything after the one marker. */
  lemma DatasetPageLast(p: string, owner: string, name: string, more: string)
    requires SiteBase(p) && Segment(owner) && Segment(name) && Segment(more) && name != "datasets"
    ensures var rest := owner + "/" + name + "/" + more;
      Contains(p + (DatasetsMarker + rest), DatasetsMarker)
      && LastPiece(p + (DatasetsMarker + rest), DatasetsMarker) == rest
  {
    MarkerWords();
    var rest := owner + "/" + name + "/" + more;
    DatasetPageOnce(owner, name, more);
    LastPieceOnce(DatasetsMarker, rest);
    MarkerFirst(DatasetsMarker, rest);
    QuietShift(p, DatasetsMarker + rest, DatasetsMarker);
    QuietLastPiece(p, DatasetsMarker + rest, DatasetsMarker);
  }

  /**
   * `<site>/datasets/<owner>/<name>/<more>` is still the dataset `owner/name`: only the first
   * two segments after the marker make the id.
   */
  lemma DatasetPageUrl(p: string, owner: string, name: string, more: string)
    requires SiteBase(p) && Segment(owner) && Segment(name) && Segment(more) && name != "datasets"
    ensures Extract(Some(p + DatasetsMarker + owner + "/" + name + "/" + more)) == Ok(Dataset(owner + "/" + name))
  {
    DatasetPagePath(p, owner, name, more);
    var rest := owner + "/" + name + "/" + more;
    Regroup(p + DatasetsMarker + owner + "/" + name, "/", more);
    Regroup(p + DatasetsMarker + owner + "/", name, "/" + more);
    Regroup(p + DatasetsMarker + owner, "/", name + ("/" + more));
    Regroup(p + DatasetsMarker, owner, "/" + (name + ("/" + more)));
    Regroup(p, DatasetsMarker, owner + ("/" + (name + ("/" + more))));
    Regroup(owner, "/", name);
    Regroup(owner + "/" + name, "/", more);
    Regroup(owner + "/", name, "/" + more);
    Regroup(owner, "/", name + ("/" + more));
    ExtractPlain(p + (DatasetsMarker + rest));
  }

  /* ---------------------------------------------------------------------------------- */
  /* The URLs pinned by backend/tests/test_core.py                                      */
  /* ---------------------------------------------------------------------------------- */

  /** The site those URLs are written on. */
  const Site := "https://www.kaggle.com"

  /** `https://www.kaggle.com/competitions/titanic` is the competition `titanic`. */
  lemma TitanicCompetition()
    ensures Extract(Some(Site + CompetitionsMarker + "titanic")) == Ok(Competition("titanic"))
  {
    KaggleSite();
    MarkerWords();
    assert Segment("titanic");
    CompetitionUrl(Site, "titanic");
  }

  /** `https://www.kaggle.com/c/titanic` is the competition `titanic` too. */
  lemma TitanicShort()
    ensures Extract(Some(Site + ShortMarker + "titanic")) == Ok(Competition("titanic"))
  {
    KaggleSite();
    MarkerWords();
    assert Segment("titanic");
    ShortCompetitionUrl(Site, "titanic");
  }

  /** `https://www.kaggle.com/datasets/owner/dataset-name` is the dataset `owner/dataset-name`. */
  lemma OwnerDataset()
    ensures Extract(Some(Site + DatasetsMarker + "owner" + "/" + "dataset-name")) == Ok(Dataset("owner" + "/" + "dataset-name"))
  {
    KaggleSite();
    MarkerWords();
    assert Segment("owner") && Segment("dataset-name");
    DatasetUrl(Site, "owner", "dataset-name");
  }

  /** `https://www.kaggle.com/competitions/titanic/overview` is still the competition `titanic`. */
  lemma TitanicOverview()
    ensures Extract(Some(Site + CompetitionsMarker + "titanic" + "/" + "overview")) == Ok(Competition("titanic"))
  {
    KaggleSite();
    assert Segment("titanic") && Segment("overview");
    CompetitionPageUrl(Site, "titanic", "overview");
  }

  /** `https://www.kaggle.com/invalid`, the empty string and `None` are rejected. */
  lemma RejectedUrls()
    ensures Extract(Some(Site + "/" + "invalid")).Err?
    ensures Extract(Some("")) == Err(NotNonEmptyString) && Extract(None) == Err(NotNonEmptyString)
  {
    KaggleSite();
    assert Segment("invalid");
    OtherUrl(Site, "invalid");
  }
}
