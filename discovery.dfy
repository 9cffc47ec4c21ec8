/**
 * The directory discovery of main.go: which game directories are listed and with which
 * screenshots, the two slice helpers, and the steamdb name lookup with its name cache.
 * Globbing, HTTP and file writes are inputs to the model.
 */
module Discovery {
  import opened Results
  import opened Strings

  /** SliceContains: a linear scan for `val`. */
  method SliceContains(s: seq<string>, val: string) returns (found: bool)
    ensures found <==> val in s
  {
    var i := 0;
    while i < |s|
      invariant 0 <= i <= |s|
      invariant val !in s[..i]
    {
      if s[i] == val {
        return true;
      }
      i := i + 1;
    }
    assert s[..i] == s;
    return false;
  }

  ghost predicate Distinct<T>(s: seq<T>)
  {
    forall i, j :: 0 <= i < j < |s| ==> s[i] != s[j]
  }

  /** GetKeys: every key once, in the map's (unspecified) iteration order. */
  method GetKeys<V>(m: map<string, V>) returns (keys: seq<string>)
    ensures Distinct(keys)
    ensures forall k :: k in keys <==> k in m
    ensures |keys| == |m|
  {
    keys := [];
    var todo := m.Keys;
    while todo != {}
      invariant todo <= m.Keys
      invariant Distinct(keys)
      invariant forall k :: k in keys <==> k in m.Keys - todo
      invariant |keys| + |todo| == |m.Keys|
      decreases todo
    {
      var k :| k in todo;
      assert k !in keys;
      keys := keys + [k];
      todo := todo - {k};
    }
  }

  /**
   * One entry of the root listing, with what the two screenshot globs returned for it
   * (`None` when a glob failed).
   */
  datatype GameDir = GameDir(path: string, jpgs: Option<seq<string>>, pngs: Option<seq<string>>)

  /** The images found in one directory: the `.jpg` matches, then the `.png` matches. */
  function Found(d: GameDir): (r: seq<string>)
    ensures d.jpgs.Some? && d.pngs.Some? ==> r == d.jpgs.value + d.pngs.value
    ensures d.jpgs.Some? && d.pngs.None? ==> r == d.jpgs.value
    ensures d.jpgs.None? && d.pngs.Some? ==> r == d.pngs.value
    ensures d.jpgs.None? && d.pngs.None? ==> r == []
  {
    (if d.jpgs.Some? then d.jpgs.value else []) + (if d.pngs.Some? then d.pngs.value else [])
  }

  /** A directory is recorded when its base name has no leading dot and it holds an image. */
  predicate Recorded(d: GameDir)
  {
    !StartsWithDot(Base(d.path)) && Found(d) != []
  }

  /** What examining one entry does to the map built so far. */
  function Record(found: map<string, seq<string>>, d: GameDir): (r: map<string, seq<string>>)
    ensures Recorded(d) ==> r == found[Base(d.path) := Found(d)]
    ensures !Recorded(d) ==> r == found
  {
    if Recorded(d) then found[Base(d.path) := Found(d)] else found
  }

  /** The map `discover` builds from the listing entries, in order; a later entry wins. */
  function DiscoverSpec(dirs: seq<GameDir>): (found: map<string, seq<string>>)
  {
    if dirs == [] then map[]
    else Record(DiscoverSpec(dirs[..|dirs| - 1]), dirs[|dirs| - 1])
  }

  lemma DiscoverNext(dirs: seq<GameDir>, i: nat)
    requires i < |dirs|
    ensures DiscoverSpec(dirs[..i + 1]) == Record(DiscoverSpec(dirs[..i]), dirs[i])
  {
    assert dirs[..i + 1][..i] == dirs[..i];
  }

  /** discover: the root glob's failure is an error; otherwise every entry is examined in order. */
  method Discover(root: Result<seq<GameDir>, string>) returns (r: Result<map<string, seq<string>>, string>)
    ensures root.Err? ==> r == Err("Error Globbing: " + root.error)
    ensures root.Ok? ==> r == Ok(DiscoverSpec(root.value))
  {
    if root.Err? {
      return Err("Error Globbing: " + root.error);
    }
    var dirs := root.value;
    var found: map<string, seq<string>> := map[];
    var i := 0;
    while i < |dirs|
      invariant 0 <= i <= |dirs|
      invariant found == DiscoverSpec(dirs[..i])
    {
      var d := dirs[i];
      DiscoverNext(dirs, i);
      var base := Base(d.path);
      if StartsWithDot(base) {
        i := i + 1;
        continue;
      }
      var dfound: seq<string> := [];
      if d.jpgs.Some? {
        dfound := dfound + d.jpgs.value;
        assert dfound == d.jpgs.value;
      }
      if d.pngs.Some? {
        dfound := dfound + d.pngs.value;
      }
      assert dfound == Found(d);
      if |dfound| > 0 {
        found := found[base := dfound];
      }
      i := i + 1;
    }
    assert dirs[..i] == dirs;
    return Ok(found);
  }

  /** Entry `d` is recorded under `name`. */
  predicate RecordedAs(d: GameDir, name: string)
  {
    Recorded(d) && Base(d.path) == name
  }

  /** Entry `i` is the last one recorded under `name`. */
  predicate LastRecordedAt(dirs: seq<GameDir>, name: string, i: int)
  {
    0 <= i < |dirs| && RecordedAs(dirs[i], name)
    && forall j :: i < j < |dirs| ==> !RecordedAs(dirs[j], name)
  }

  /** What the last entry does to one name: it sets it when recorded under it, else keeps it. */
  lemma DiscoverAt(dirs: seq<GameDir>, name: string)
    requires dirs != []
    ensures var d, init := dirs[|dirs| - 1], DiscoverSpec(dirs[..|dirs| - 1]);
      if RecordedAs(d, name) then name in DiscoverSpec(dirs) && DiscoverSpec(dirs)[name] == Found(d)
      else ((name in DiscoverSpec(dirs) <==> name in init)
            && (name in init ==> DiscoverSpec(dirs)[name] == init[name]))
  {
  }

  /** Some entry of `dirs` is recorded under `name`. */
  predicate SomeRecorded(dirs: seq<GameDir>, name: string)
  {
    exists i :: 0 <= i < |dirs| && RecordedAs(dirs[i], name)
  }

  lemma SomeRecordedAt(dirs: seq<GameDir>, name: string, i: int)
    requires 0 <= i < |dirs| && RecordedAs(dirs[i], name)
    ensures SomeRecorded(dirs, name)
  {
  }

  /** An entry recorded under `name` puts `name` among the keys. */
  lemma {:induction false} DiscoverFrom(dirs: seq<GameDir>, name: string, i: int)
    requires 0 <= i < |dirs| && RecordedAs(dirs[i], name)
    ensures name in DiscoverSpec(dirs)
  {
    DiscoverAt(dirs, name);
    if i < |dirs| - 1 {
      var init := dirs[..|dirs| - 1];
      assert init[i] == dirs[i];
      DiscoverFrom(init, name, i);
    }
  }

  /** A name is a key exactly when some recorded entry has that base name. */
  lemma DiscoverKeys(dirs: seq<GameDir>, name: string)
    ensures name in DiscoverSpec(dirs) <==> SomeRecorded(dirs, name)
  {
    if name in DiscoverSpec(dirs) {
      var i := DiscoverValue(dirs, name);
      SomeRecordedAt(dirs, name, i);
    }
    if SomeRecorded(dirs, name) {
      var i :| 0 <= i < |dirs| && RecordedAs(dirs[i], name);
      DiscoverFrom(dirs, name, i);
    }
  }

  /** The value stored under a key is the image list of the last entry recorded under it. */
  lemma {:induction false} DiscoverValue(dirs: seq<GameDir>, name: string) returns (i: nat)
    requires name in DiscoverSpec(dirs)
    ensures LastRecordedAt(dirs, name, i) && DiscoverSpec(dirs)[name] == Found(dirs[i])
  {
    var init := dirs[..|dirs| - 1];
    var d := dirs[|dirs| - 1];
    DiscoverAt(dirs, name);
    if RecordedAs(d, name) {
      i := |dirs| - 1;
    } else {
      i := DiscoverValue(init, name);
      LastRecordedExtend(dirs, name, i);
    }
  }

  /** An entry that is not recorded under `name` leaves the last one recorded under it in place. */
  lemma LastRecordedExtend(dirs: seq<GameDir>, name: string, i: int)
    requires dirs != [] && LastRecordedAt(dirs[..|dirs| - 1], name, i)
    requires !RecordedAs(dirs[|dirs| - 1], name)
    ensures LastRecordedAt(dirs, name, i)
  {
    var init := dirs[..|dirs| - 1];
    assert dirs[i] == init[i];
    forall j | i < j < |dirs|
      ensures !RecordedAs(dirs[j], name)
    {
      if j < |init| {
        assert dirs[j] == init[j];
      }
    }
  }

  /** No key starts with a dot, and every recorded list is non-empty. */
  lemma DiscoverWellFormed(dirs: seq<GameDir>, name: string)
    requires name in DiscoverSpec(dirs)
    ensures !StartsWithDot(name) && DiscoverSpec(dirs)[name] != []
  {
    var i := DiscoverValue(dirs, name);
  }

  // ---------------------------------------------------------------- getGameName

  /** What fetching and scanning the steamdb page for an appid produced. */
  datatype Scrape =
    | RequestFailed
    | BodyUnreadable
    | NoNameMatch
    | Matched(name: string, unquoted: Option<string>)  // HTML-unescaped match, and strconv.Unquote of it

  datatype NameError =
    | SteamdbUnreachable
    | SteamdbUnreadable
    | NameNotFound
    | SaveFailed
      /** `games[appid] = name` on a nil map: a run-time panic, not an error return. */
    | NilMapWrite

  /**
   * The global `games` map of main.go, which `getGameName` extends. `None` is the nil map
   * `loadGames` leaves behind when `games.json` cannot be read or holds `null`: it reads as
   * empty, and storing into it panics.
   */
  class GameNames {
    var games: Option<map<string, string>>

    constructor (games: Option<map<string, string>>)
      ensures this.games == games
    {
      this.games := games;
    }

    /** The name cached for an appid; a nil map caches nothing. */
    function Cached(appid: string): (r: Option<string>)
      reads this
      ensures r.Some? <==> games.Some? && appid in games.value
      ensures r.Some? ==> r.value == games.value[appid]
    {
      if games.Some? && appid in games.value then Some(games.value[appid]) else None
    }

    /**
     * `getGameName` over the scrape's outcome and whether saving `games.json` succeeded.
     * A scraped name is the unquoted match when `strconv.Unquote` succeeds, otherwise the
     * HTML-unescaped match. Storing it into a nil map panics (`NilMapWrite`), so nothing is
     * returned or saved then.
     */
    method GetGameName(appid: string, scrape: Scrape, saveOk: bool) returns (name: string, err: Option<NameError>)
      modifies this`games
      ensures appid == ".stfolder" ==> name == appid && err == None && games == old(games)
      ensures appid != ".stfolder" && old(Cached(appid)).Some? ==>
        name == old(Cached(appid)).value && err == None && games == old(games)
      ensures appid != ".stfolder" && old(Cached(appid)).None? && scrape.Matched? ==>
        name == (if scrape.unquoted.Some? then scrape.unquoted.value else scrape.name)
      ensures appid != ".stfolder" && old(Cached(appid)).None? && scrape.Matched? && old(games).Some? ==>
        games == Some(old(games).value[appid := name])
        && err == (if saveOk then None else Some(SaveFailed))
      ensures appid != ".stfolder" && old(Cached(appid)).None? && scrape.Matched? && old(games).None? ==>
        games == None && err == Some(NilMapWrite)
      ensures appid != ".stfolder" && old(Cached(appid)).None? && !scrape.Matched? ==>
        name == appid && games == old(games)
        && err == Some(match scrape
                       case RequestFailed => SteamdbUnreachable
                       case BodyUnreadable => SteamdbUnreadable
                       case _ => NameNotFound)
    {
      if appid == ".stfolder" {
        return appid, None;
      }
      if games.Some? && appid in games.value {
        return games.value[appid], None;
      }
      match scrape {
        case RequestFailed => return appid, Some(SteamdbUnreachable);
        case BodyUnreadable => return appid, Some(SteamdbUnreadable);
        case NoNameMatch => return appid, Some(NameNotFound);
        case Matched(found, unquoted) =>
          name := found;
          if unquoted.Some? {
            name := unquoted.value;
          }
          if games.None? {
            return name, Some(NilMapWrite);
          }
          games := Some(games.value[appid := name]);
          if !saveOk {
            return name, Some(SaveFailed);
          }
          return name, None;
      }
    }
  }

  /** A nil table panics on the first name it has to store, whatever the appid. */
  method NilTablePanics(appid: string, found: string) returns (err: Option<NameError>)
    requires appid != ".stfolder"
    ensures err == Some(NilMapWrite)
  {
    var names := new GameNames(None);
    var _, e := names.GetGameName(appid, Matched(found, None), true);
    err := e;
  }
}
