/**
 * The request-independent logic of handlers.go: ordering keys by their values, the
 * case-insensitive ordering of game names, the every-third "clearme" rule and the way the
 * thumbnail, image and banner handlers take their request paths apart. Serving files,
 * templates and the banner download are not modelled.
 */
module Handlers {
  import opened Results
  import opened Strings
  import Discovery
  import opened KeyOrder

  // ---------------------------------------------------------------- SortKeysByValue

  /** The first loop: the values of `m`, one per key, in the map's iteration order. */
  method CollectValues(m: map<string, string>) returns (vals: seq<string>, ghost seen: seq<string>)
    ensures Enumerates(m, seen) && |seen| == |m|
    ensures vals == ValuesIn(m, seen)
  {
    vals, seen := [], [];
    var todo := m.Keys;
    while todo != {}
      invariant todo <= m.Keys
      invariant Discovery.Distinct(seen)
      invariant forall i :: 0 <= i < |seen| ==> seen[i] in m && seen[i] !in todo
      invariant forall k :: k in m && k !in todo ==> k in seen
      invariant |seen| + |todo| == |m.Keys|
      invariant vals == ValuesIn(m, seen)
      decreases todo
    {
      var k :| k in todo;
      assert k !in seen;
      vals, seen := vals + [m[k]], seen + [k];
      todo := todo - {k};
    }
  }

  /** The inner loop: appends the keys whose value is `s`, in the map's iteration order. */
  method AppendKeysWithValue(m: map<string, string>, s: string, sorted: seq<string>)
    returns (r: seq<string>, ghost seen: seq<string>)
    ensures Enumerates(m, seen)
    ensures r == sorted + KeysWithValue(m, seen, s)
  {
    r, seen := sorted, [];
    var todo := m.Keys;
    while todo != {}
      invariant todo <= m.Keys
      invariant Discovery.Distinct(seen)
      invariant forall i :: 0 <= i < |seen| ==> seen[i] in m && seen[i] !in todo
      invariant forall k :: k in m && k !in todo ==> k in seen
      invariant r == sorted + KeysWithValue(m, seen, s)
      decreases todo
    {
      var k :| k in todo;
      assert k !in seen;
      KeysWithValueNext(m, seen, k, s);
      if m[k] == s {
        r := r + [k];
      }
      seen := seen + [k];
      todo := todo - {k};
    }
  }

  /** The outer loop: for each sorted value in turn, appends the keys that carry it. */
  method AppendBlocks(m: map<string, string>, vals: seq<string>)
    returns (sorted: seq<string>, ghost orders: seq<seq<string>>)
    ensures |orders| == |vals| && forall j :: 0 <= j < |orders| ==> Enumerates(m, orders[j])
    ensures sorted == Blocks(m, vals, orders)
  {
    sorted, orders := [], [];
    var i := 0;
    while i < |vals|
      invariant i <= |vals| && |orders| == i
      invariant forall j :: 0 <= j < i ==> Enumerates(m, orders[j])
      invariant sorted == Blocks(m, vals[..i], orders)
    {
      ghost var seen;
      sorted, seen := AppendKeysWithValue(m, vals[i], sorted);
      BlocksNext(m, vals, orders, i, seen);
      orders := orders + [seen];
      i := i + 1;
    }
    assert vals[..i] == vals;
  }

  /**
   * SortKeysByValue: the keys of `m` ordered by their values. A key whose value is shared
   * by n keys appears n times, so only a map with distinct values yields each key once.
   */
  method SortKeysByValue(m: map<string, string>) returns (sorted: seq<string>)
    ensures forall i :: 0 <= i < |sorted| ==> sorted[i] in m
    ensures forall k :: k in m ==> k in sorted
    ensures forall i, j :: 0 <= i < j < |sorted| ==> LexLessEq(m[sorted[i]], m[sorted[j]])
    ensures forall k :: k in m ==> multiset(sorted)[k] == Multiplicity(m, m[k])
    ensures Injective(m) ==> |sorted| == |m| && forall k :: k in m ==> multiset(sorted)[k] == 1
  {
    var unsorted, keys := CollectValues(m);
    var vals := SortStrings(unsorted);
    ghost var orders;
    sorted, orders := AppendBlocks(m, vals);
    SortedAdjacent(vals);
    assert vals[..|vals|] == vals;
    BlocksInvariant(m, vals, orders, |vals|);
    BlocksFinal(m, keys, vals, sorted);
  }

  // ---------------------------------------------------------------- StringSliceNoCase

  /** `Less`: position `i` sorts before position `j` when its lower-cased text is smaller. */
  predicate NoCaseLess(p: seq<string>, i: int, j: int)
    requires 0 <= i < |p| && 0 <= j < |p|
  {
    LexLess(ToLower(p[i]), ToLower(p[j]))
  }

  /** No position sorts before itself. */
  lemma NoCaseIrreflexive(p: seq<string>, i: int)
    requires 0 <= i < |p|
    ensures !NoCaseLess(p, i, i)
  {
    LexLessIrreflexive(ToLower(p[i]));
  }

  lemma NoCaseTransitive(p: seq<string>, i: int, j: int, k: int)
    requires 0 <= i < |p| && 0 <= j < |p| && 0 <= k < |p|
    requires NoCaseLess(p, i, j) && NoCaseLess(p, j, k)
    ensures NoCaseLess(p, i, k)
  {
    LexLessTransitive(ToLower(p[i]), ToLower(p[j]), ToLower(p[k]));
  }

  /**
   * Two positions are unordered exactly when their texts agree up to case, so `sort.Sort`
   * sees a strict weak order.
   */
  lemma NoCaseUnordered(p: seq<string>, i: int, j: int)
    requires 0 <= i < |p| && 0 <= j < |p|
    ensures !NoCaseLess(p, i, j) && !NoCaseLess(p, j, i) <==> ToLower(p[i]) == ToLower(p[j])
  {
    LexLessTotal(ToLower(p[i]), ToLower(p[j]));
    LexLessIrreflexive(ToLower(p[i]));
  }

  /** Texts that differ only in the case of ASCII letters compare as equal. */
  lemma NoCaseIgnoresCase(p: seq<string>, i: int, j: int)
    requires 0 <= i < |p| && 0 <= j < |p| && |p[i]| == |p[j]|
    requires forall n :: 0 <= n < |p[i]| ==> LowerChar(p[i][n]) == LowerChar(p[j][n])
    ensures !NoCaseLess(p, i, j) && !NoCaseLess(p, j, i)
  {
    assert ToLower(p[i]) == ToLower(p[j]);
    LexLessIrreflexive(ToLower(p[i]));
  }

  /** `Swap`: exchanges positions `i` and `j` and nothing else. */
  method Swap(p: array<string>, i: int, j: int)
    requires 0 <= i < p.Length && 0 <= j < p.Length
    modifies p
    ensures p[..] == old(p[..])[i := old(p[j])][j := old(p[i])]
    ensures multiset(p[..]) == multiset(old(p[..]))
  {
    p[i], p[j] := p[j], p[i];
  }

  // ---------------------------------------------------------------- List pages

  /** The "Clear" class of the list item at `idx`: every third item starts a new row. */
  function ClearClass(idx: nat): (c: string)
    ensures c == " clearme" <==> idx % 3 == 0
    ensures c == "" <==> idx % 3 != 0
  {
    if idx % 3 == 0 then " clearme" else ""
  }

  /** How many of the first `n` items carry the class. */
  function ClearedAmong(n: nat): nat
  {
    if n == 0 then 0 else ClearedAmong(n - 1) + if ClearClass(n - 1) == "" then 0 else 1
  }

  /** One item in three, rounded up, carries the class. */
  lemma {:induction false} ClearedAmongCount(n: nat)
    ensures ClearedAmong(n) == (n + 2) / 3
  {
    if n > 0 {
      ClearedAmongCount(n - 1);
    }
  }

  /** Each row of three starts with the one item of the row that carries the class. */
  lemma ClearStartsRow(row: nat)
    ensures ClearClass(3 * row) == " clearme"
    ensures ClearClass(3 * row + 1) == "" && ClearClass(3 * row + 2) == ""
  {
    assert (3 * row) % 3 == 0;
  }

  // ---------------------------------------------------------------- Request paths

  /** `strings.Split(strings.Trim(path, "/"), "/")`. */
  function Segments(urlPath: string): (segs: seq<string>)
    ensures |segs| >= 1
    ensures forall i :: 0 <= i < |segs| ==> '/' !in segs[i]
  {
    Split(Trim(urlPath, '/'), '/')
  }

  /**
   * handler_thumb: a path of exactly three segments names `<dir>/screenshots/thumbnails/<file>`
   * under the screenshot root (as the list of parts given to `filepath.Join`); any other
   * path is answered with a split error carrying the segments.
   */
  function ThumbPath(root: string, urlPath: string): (r: Result<seq<string>, seq<string>>)
    ensures r.Err? <==> |Segments(urlPath)| != 3
    ensures r.Err? ==> r.error == Segments(urlPath)
    ensures r.Ok? ==> r.value == [root, Segments(urlPath)[1], "screenshots", "thumbnails", Segments(urlPath)[2]]
  {
    var split := Segments(urlPath);
    if |split| != 3 then Err(split)
    else Ok([root, split[1], "screenshots", "thumbnails", split[2]])
  }

  /** handler_image: like handler_thumb, for `<dir>/screenshots/<file>`. */
  function ImagePath(root: string, urlPath: string): (r: Result<seq<string>, seq<string>>)
    ensures r.Err? <==> |Segments(urlPath)| != 3
    ensures r.Err? ==> r.error == Segments(urlPath)
    ensures r.Ok? ==> r.value == [root, Segments(urlPath)[1], "screenshots", Segments(urlPath)[2]]
  {
    var split := Segments(urlPath);
    if |split| != 3 then Err(split)
    else Ok([root, split[1], "screenshots", split[2]])
  }

  /** The segments of `/<prefix>/<a>/.../<z>` for slash-free pieces, the last one non-empty. */
  lemma {:induction false} SegmentsOfLink(parts: seq<string>)
    requires |parts| >= 1 && parts[0] != [] && parts[|parts| - 1] != []
    requires forall i :: 0 <= i < |parts| ==> '/' !in parts[i]
    ensures Segments("/" + Join(parts, '/')) == parts
  {
    var s := Join(parts, '/');
    JoinEnds(parts, '/');
    TrimLeading(s, '/');
    assert "/" + s == ['/'] + s;
    SplitJoin(parts, '/');
  }

  lemma {:induction false} JoinEnds(parts: seq<string>, sep: char)
    requires |parts| >= 1 && parts[0] != [] && parts[|parts| - 1] != []
    ensures Join(parts, sep) != [] && Join(parts, sep)[0] == parts[0][0]
    ensures Join(parts, sep)[|Join(parts, sep)| - 1] == parts[|parts| - 1][|parts[|parts| - 1]| - 1]
  {
    if |parts| > 1 {
      JoinLast(parts[1..], sep);
    }
  }

  lemma {:induction false} JoinLast(parts: seq<string>, sep: char)
    requires |parts| >= 1 && parts[|parts| - 1] != []
    ensures Join(parts, sep) != []
    ensures Join(parts, sep)[|Join(parts, sep)| - 1] == parts[|parts| - 1][|parts[|parts| - 1]| - 1]
  {
    if |parts| > 1 {
      JoinLast(parts[1..], sep);
    }
  }

  /** The segments of `/<prefix>/<dir>/<file>`. */
  lemma LinkSegments(prefix: string, dir: string, file: string)
    requires prefix != [] && '/' !in prefix && '/' !in dir && '/' !in file && file != []
    ensures Segments("/" + prefix + "/" + dir + "/" + file) == [prefix, dir, file]
  {
    JoinThree(prefix, dir, file, '/');
    assert "/" + prefix + "/" + dir + "/" + file == "/" + Join([prefix, dir, file], '/');
    SegmentsOfLink([prefix, dir, file]);
  }

  /** The thumbnail link the list page builds, `/thumb/<dir>/<file>`, names that directory's thumbnail. */
  lemma ThumbLinkServed(root: string, dir: string, file: string)
    requires '/' !in dir && '/' !in file && file != []
    ensures ThumbPath(root, "/thumb/" + dir + "/" + file) == Ok([root, dir, "screenshots", "thumbnails", file])
  {
    var thumb := "thumb";
    assert "/thumb/" + dir + "/" + file == "/" + thumb + "/" + dir + "/" + file by {
      assert "/thumb/" == "/" + thumb + "/";
    }
    LinkSegments(thumb, dir, file);
  }

  /** The image link the list page builds, `/img/<dir>/<file>`, names that directory's screenshot. */
  lemma ImageLinkServed(root: string, dir: string, file: string)
    requires '/' !in dir && '/' !in file && file != []
    ensures ImagePath(root, "/img/" + dir + "/" + file) == Ok([root, dir, "screenshots", file])
  {
    var img := "img";
    assert "/img/" + dir + "/" + file == "/" + img + "/" + dir + "/" + file by {
      assert "/img/" == "/" + img + "/";
    }
    LinkSegments(img, dir, file);
  }

  // ---------------------------------------------------------------- handler_banner

  /** The banner appid text: the segment cut before its last ".", or all of it without one. */
  function BannerAppidBase(seg: string): (r: string)
    ensures '.' !in seg ==> r == seg
    ensures '.' in seg ==> |r| < |seg| && seg[..|r|] == r && seg[|r|] == '.' && '.' !in seg[|r| + 1..]
  {
    var idx := LastIndex(seg, '.');
    if idx > -1 then seg[..idx] else seg
  }

  /** Only the last extension is cut: `name.ext` gives `name`, dots in `name` included. */
  lemma BannerBaseOfName(name: string, ext: string)
    requires '.' !in ext
    ensures BannerAppidBase(name + "." + ext) == name
  {
    var seg := name + "." + ext;
    assert seg[|name|] == '.' && seg[|name| + 1..] == ext;
    assert seg[..|name|] == name;
  }

  datatype BannerTarget =
    | BannerSplitError(segments: seq<string>)  // the path does not have two segments
    | UnknownBanner                            // the appid does not parse: serve the placeholder
    | BannerFile(path: string)                 // the banner file to look up or download

  /**
   * The appid handler_banner reads: the segment after `/banner/`, cut at its last ".", as a
   * decimal below 2^64. A path without two segments is a split error carrying the segments;
   * an appid that does not parse gets the placeholder banner.
   */
  function BannerAppid(urlPath: string): (r: Result<nat, BannerTarget>)
    ensures |Segments(urlPath)| != 2 ==> r == Err(BannerSplitError(Segments(urlPath)))
    ensures |Segments(urlPath)| == 2 && ParseUint(BannerAppidBase(Segments(urlPath)[1]), Uint64Limit).None? ==>
      r == Err(UnknownBanner)
    ensures r.Ok? ==>
      r.value < Uint64Limit && |Segments(urlPath)| == 2
      && ParseUint(BannerAppidBase(Segments(urlPath)[1]), Uint64Limit) == Some(r.value)
  {
    var split := Segments(urlPath);
    if |split| != 2 then Err(BannerSplitError(split))
    else match ParseUint(BannerAppidBase(split[1]), Uint64Limit)
      case None => Err(UnknownBanner)
      case Some(appid) => Ok(appid)
  }

  /** handler_banner as intended: the file is `banners/<appid>.jpg`. */
  function BannerRequest(urlPath: string): (t: BannerTarget)
    ensures t.BannerSplitError? <==> |Segments(urlPath)| != 2
    ensures t.UnknownBanner? <==>
      |Segments(urlPath)| == 2 && ParseUint(BannerAppidBase(Segments(urlPath)[1]), Uint64Limit).None?
  {
    match BannerAppid(urlPath)
    case Err(t) => t
    case Ok(appid) => BannerFile("banners/" + FormatNat(appid) + ".jpg")
  }

  /**
   * handler_banner as written: the file name is built with `%s`, which Go's fmt renders for
   * an unsigned integer as `%!s(uint64=N)`. Only the file name differs from the intended
   * handler.
   */
  function BannerRequestAsWritten(urlPath: string): (t: BannerTarget)
    ensures t.BannerFile? <==> BannerRequest(urlPath).BannerFile?
    ensures !t.BannerFile? ==> t == BannerRequest(urlPath)
  {
    var appid := BannerAppid(urlPath);
    if appid.Err? then appid.error
    else BannerFile("banners/%!s(uint64=" + FormatNat(appid.value) + ").jpg")
  }

  /** The segments of `/<prefix>/<file>`. */
  lemma PairSegments(prefix: string, file: string)
    requires prefix != [] && '/' !in prefix && '/' !in file && file != []
    ensures Segments("/" + prefix + "/" + file) == [prefix, file]
  {
    assert [prefix, file][1..] == [file];
    assert Join([prefix, file], '/') == prefix + "/" + file;
    assert "/" + prefix + "/" + file == "/" + Join([prefix, file], '/');
    SegmentsOfLink([prefix, file]);
  }

  /** A decimal rendering holds neither a slash nor a dot. */
  lemma DigitsPlain(n: nat)
    ensures '/' !in FormatNat(n) && '.' !in FormatNat(n)
  {
    var digits := FormatNat(n);
    forall i | 0 <= i < |digits| ensures digits[i] != '/' && digits[i] != '.' {
      assert IsDigit(digits[i]);
    }
  }

  lemma BannerText(digits: string)
    ensures "/banner/" + digits + ".jpg" == "/" + "banner" + "/" + (digits + ".jpg")
  {
    assert "/banner/" == "/" + "banner" + "/";
  }

  lemma JpgName(digits: string)
    requires '/' !in digits
    ensures '/' !in digits + ".jpg" && digits + ".jpg" == digits + "." + "jpg"
  {
  }

  /** The segments of `/banner/<appid>.jpg`, and the appid text cut from the second one. */
  lemma BannerSegments(n: nat)
    ensures Segments("/banner/" + FormatNat(n) + ".jpg") == ["banner", FormatNat(n) + ".jpg"]
    ensures BannerAppidBase(FormatNat(n) + ".jpg") == FormatNat(n)
  {
    var digits := FormatNat(n);
    DigitsPlain(n);
    BannerText(digits);
    JpgName(digits);
    PairSegments("banner", digits + ".jpg");
    BannerBaseOfName(digits, "jpg");
  }

  /** The intended handler serves `/banner/<appid>.jpg` from `banners/<appid>.jpg`. */
  lemma BannerRoundTrip(n: nat)
    requires n < Uint64Limit
    ensures BannerRequest("/banner/" + FormatNat(n) + ".jpg") == BannerFile("banners/" + FormatNat(n) + ".jpg")
  {
    BannerSegments(n);
    ParseFormat(n, Uint64Limit);
  }

  /** As written, `/banner/<appid>.jpg` is looked up under the `%!s(uint64=…)` rendering. */
  lemma BannerAsWritten(n: nat)
    requires n < Uint64Limit
    ensures BannerRequestAsWritten("/banner/" + FormatNat(n) + ".jpg")
         == BannerFile("banners/%!s(uint64=" + FormatNat(n) + ").jpg")
  {
    BannerSegments(n);
    ParseFormat(n, Uint64Limit);
  }

  /** The texts built around the decimal rendering of 570. */
  lemma Texts570()
    ensures "/banner/" + FormatNat(570) + ".jpg" == "/banner/570.jpg"
    ensures "banners/%!s(uint64=" + FormatNat(570) + ").jpg" == "banners/%!s(uint64=570).jpg"
    ensures "banners/" + FormatNat(570) + ".jpg" == "banners/570.jpg"
  {
    assert DigitChar(5) == '5' && DigitChar(7) == '7' && DigitChar(0) == '0';
    assert FormatNat(5) == "5";
    assert FormatNat(57) == FormatNat(5) + [DigitChar(7)] == "57";
    assert FormatNat(570) == FormatNat(57) + [DigitChar(0)] == "570";
  }

  /** As written, the banner of appid 570 is looked up as `banners/%!s(uint64=570).jpg`. */
  lemma BannerVerbMismatch()
    ensures BannerRequestAsWritten("/banner/570.jpg") == BannerFile("banners/%!s(uint64=570).jpg")
  {
    Texts570();
    BannerAsWritten(570);
  }

  /** The intended handler looks the same banner up as `banners/570.jpg`. */
  lemma BannerIntended()
    ensures BannerRequest("/banner/570.jpg") == BannerFile("banners/570.jpg")
  {
    Texts570();
    BannerRoundTrip(570);
  }
}
