/**
 * The name-resolution side of server.go: loading the settings, refreshing the appid table
 * from Steam's app list (throttled to once per 30 minutes, overrides applied last) and
 * `getGameName`'s choice between the cached name, the non-Steam placeholder and a refresh.
 * The clock, the HTTP fetch and the cache file writes are inputs.
 */
module ServerCore {
  import opened Results
  import opened Strings
  import opened GameLists

  datatype Override = Override(appid: string, name: string)

  datatype Settings = Settings(
    imageDirectory: string,
    address: string,
    appidOverrides: seq<Override>,
    refreshInterval: int,       // minutes
    apiKey: string,
    apiWhitelist: seq<string>)

  /** What reading and decoding the settings file produced. */
  datatype SettingsFile = SettingsUnreadable | SettingsMalformed | SettingsParsed(settings: Settings)

  datatype SettingsError = ReadSettingsFailed | UnmarshalSettingsFailed | GamesCacheFailed(cause: LoadError)

  /** One entry of Steam's app list. */
  datatype App = App(appid: nat, name: string)

  /** What fetching, reading and decoding the app list produced. */
  datatype AppListFetch = FetchFailed | BodyUnreadable | JsonMalformed | Fetched(apps: seq<App>)

  datatype UpdateError = AppListUnreachable | AppListUnreadable | AppListUndecodable | CacheSaveFailed

  /** Thirty minutes, in the nanoseconds the clock is read in. */
  const CacheLifetime: int := 30 * 60 * 1_000_000_000

  /** The refresh interval after loading: at least one minute. */
  function ClampRefresh(minutes: int): (r: int)
    ensures r >= 1
    ensures minutes >= 1 ==> r == minutes
    ensures minutes < 1 ==> r == 1
  {
    if minutes < 1 then 1 else minutes
  }

  /** A refresh is skipped while the last one started less than 30 minutes before `now`. */
  predicate Throttled(lastUpdate: Option<int>, now: int)
  {
    lastUpdate.Some? && now - lastUpdate.value < CacheLifetime
  }

  // ---------------------------------------------------------------- The table after a refresh

  /** `Games.Set` applied to each pair in order. */
  function SetAll(games: map<string, string>, pairs: seq<(string, string)>): (r: map<string, string>)
    ensures r.Keys == games.Keys + set i | 0 <= i < |pairs| :: pairs[i].0
  {
    if pairs == [] then games
    else
      var last := pairs[|pairs| - 1];
      var r := SetAll(games, pairs[..|pairs| - 1]);
      assert forall i :: 0 <= i < |pairs| - 1 ==> pairs[..|pairs| - 1][i] == pairs[i];
      r[last.0 := last.1]
  }

  lemma SetAllNext(games: map<string, string>, pairs: seq<(string, string)>, i: nat)
    requires i < |pairs|
    ensures SetAll(games, pairs[..i + 1]) == SetAll(games, pairs[..i])[pairs[i].0 := pairs[i].1]
  {
    assert pairs[..i + 1][..i] == pairs[..i];
  }

  /** Pair `i` is the last one that sets `id`. */
  predicate LastSetAt(pairs: seq<(string, string)>, id: string, i: int)
  {
    0 <= i < |pairs| && pairs[i].0 == id && forall j :: i < j < |pairs| ==> pairs[j].0 != id
  }

  /** The last pair that sets an id decides its name. */
  lemma {:induction false} SetAllLast(games: map<string, string>, pairs: seq<(string, string)>, id: string, i: int)
    requires LastSetAt(pairs, id, i)
    ensures id in SetAll(games, pairs) && SetAll(games, pairs)[id] == pairs[i].1
  {
    if i < |pairs| - 1 {
      var init := pairs[..|pairs| - 1];
      assert LastSetAt(init, id, i);
      SetAllLast(games, init, id, i);
    }
  }

  /** An id no pair sets keeps its old name. */
  lemma {:induction false} SetAllUntouched(games: map<string, string>, pairs: seq<(string, string)>, id: string)
    requires forall j :: 0 <= j < |pairs| ==> pairs[j].0 != id
    ensures (id in SetAll(games, pairs) <==> id in games)
    ensures id in games ==> SetAll(games, pairs)[id] == games[id]
  {
    if pairs != [] {
      SetAllUntouched(games, pairs[..|pairs| - 1], id);
    }
  }

  /** The fetched apps as `(decimal appid, name)` pairs. */
  function AppPairs(apps: seq<App>): (ps: seq<(string, string)>)
    ensures |ps| == |apps|
    ensures forall i :: 0 <= i < |apps| ==> ps[i] == (FormatNat(apps[i].appid), apps[i].name)
  {
    seq(|apps|, i requires 0 <= i < |apps| => (FormatNat(apps[i].appid), apps[i].name))
  }

  function OverridePairs(ovs: seq<Override>): (ps: seq<(string, string)>)
    ensures |ps| == |ovs|
    ensures forall i :: 0 <= i < |ovs| ==> ps[i] == (ovs[i].appid, ovs[i].name)
  {
    seq(|ovs|, i requires 0 <= i < |ovs| => (ovs[i].appid, ovs[i].name))
  }

  /** The table after a successful fetch: the fetched names, then the overrides. */
  function Refreshed(games: map<string, string>, apps: seq<App>, ovs: seq<Override>): map<string, string>
  {
    SetAll(SetAll(games, AppPairs(apps)), OverridePairs(ovs))
  }

  /** An override always wins over the fetched name, being set after it. */
  lemma OverridesWin(games: map<string, string>, apps: seq<App>, ovs: seq<Override>, i: int)
    requires 0 <= i < |ovs| && LastSetAt(OverridePairs(ovs), ovs[i].appid, i)
    ensures Refreshed(games, apps, ovs)[ovs[i].appid] == ovs[i].name
  {
    SetAllLast(SetAll(games, AppPairs(apps)), OverridePairs(ovs), ovs[i].appid, i);
  }

  /** Without an override, the last fetched name of an appid is the one kept. */
  lemma FetchedNameKept(games: map<string, string>, apps: seq<App>, ovs: seq<Override>, i: int)
    requires 0 <= i < |apps| && LastSetAt(AppPairs(apps), FormatNat(apps[i].appid), i)
    requires forall j :: 0 <= j < |ovs| ==> ovs[j].appid != FormatNat(apps[i].appid)
    ensures Refreshed(games, apps, ovs)[FormatNat(apps[i].appid)] == apps[i].name
  {
    var id := FormatNat(apps[i].appid);
    SetAllLast(games, AppPairs(apps), id, i);
    SetAllUntouched(SetAll(games, AppPairs(apps)), OverridePairs(ovs), id);
  }

  /** A refresh never forgets an id: names are only added or replaced. */
  lemma RefreshKeepsIds(games: map<string, string>, apps: seq<App>, ovs: seq<Override>)
    ensures games.Keys <= Refreshed(games, apps, ovs).Keys
  {
  }

  /** The result `updateGamesJson` reports. */
  function UpdateOutcome(lastUpdate: Option<int>, now: int, fetch: AppListFetch, saveOk: bool): Option<UpdateError>
  {
    if Throttled(lastUpdate, now) then None
    else match fetch
      case FetchFailed => Some(AppListUnreachable)
      case BodyUnreadable => Some(AppListUnreadable)
      case JsonMalformed => Some(AppListUndecodable)
      case Fetched(_) => if saveOk then None else Some(CacheSaveFailed)
  }

  /** The table after `updateGamesJson`. */
  function UpdatedGames(games: map<string, string>, lastUpdate: Option<int>, now: int, fetch: AppListFetch,
                        ovs: seq<Override>): map<string, string>
  {
    if Throttled(lastUpdate, now) || !fetch.Fetched? then games else Refreshed(games, fetch.apps, ovs)
  }

  /** The placeholder stored for an appid too long to be a Steam appid. */
  function NonSteamName(appid: string): string
  {
    "Non-Steam game (" + appid + ")"
  }

  class Server {
    var settings: Settings
    var games: GameList?
    var lastUpdate: Option<int>

    constructor (settings: Settings)
      ensures this.settings == settings && games == null && lastUpdate == None
    {
      this.settings := settings;
      games := null;
      lastUpdate := None;
    }

    /**
     * loadSettings: read the settings, raise the refresh interval to at least one minute and
     * load the name table from `games.cache` (whose failure leaves no table).
     */
    method LoadSettings(file: SettingsFile, cache: GameFile) returns (err: Option<SettingsError>)
      modifies this`settings, this`games
      ensures file.SettingsUnreadable? ==> err == Some(ReadSettingsFailed) && settings == old(settings) && games == old(games)
      ensures file.SettingsMalformed? ==> err == Some(UnmarshalSettingsFailed) && settings == old(settings) && games == old(games)
      ensures file.SettingsParsed? ==>
        settings == file.settings.(refreshInterval := ClampRefresh(file.settings.refreshInterval))
      ensures file.SettingsParsed? && cache.Missing? ==>
        err == None && games != null && fresh(games) && games.filename == "games.cache" && games.games == map[]
      ensures file.SettingsParsed? && cache.Decoded? ==>
        err == None && games != null && fresh(games) && games.filename == "games.cache" && games.games == cache.games
      ensures file.SettingsParsed? && cache.Unreadable? ==> err == Some(GamesCacheFailed(OpenError)) && games == null
      ensures file.SettingsParsed? && cache.Malformed? ==> err == Some(GamesCacheFailed(DecodeError)) && games == null
    {
      match file {
        case SettingsUnreadable => return Some(ReadSettingsFailed);
        case SettingsMalformed => return Some(UnmarshalSettingsFailed);
        case SettingsParsed(st) =>
          settings := st;
      }
      if settings.refreshInterval < 1 {
        settings := settings.(refreshInterval := 1);
      }
      var loadErr;
      games, loadErr := LoadGameList("games.cache", cache);
      err := if loadErr.Some? then Some(GamesCacheFailed(loadErr.value)) else None;
    }

    /**
     * updateGamesJson: unless throttled, stamp the refresh time, then on a successful fetch set
     * every fetched name and then every override, and save the table.
     */
    method UpdateGamesJson(now: int, fetch: AppListFetch, saveOk: bool) returns (err: Option<UpdateError>)
      requires games != null
      modifies this`lastUpdate, games`games
      ensures err == UpdateOutcome(old(lastUpdate), now, fetch, saveOk)
      ensures lastUpdate == if Throttled(old(lastUpdate), now) then old(lastUpdate) else Some(now)
      ensures games.games == UpdatedGames(old(games.games), old(lastUpdate), now, fetch, settings.appidOverrides)
    {
      if lastUpdate.Some? && now - lastUpdate.value < CacheLifetime {
        return None;
      }
      lastUpdate := Some(now);
      var apps;
      match fetch {
        case FetchFailed => return Some(AppListUnreachable);
        case BodyUnreadable => return Some(AppListUnreadable);
        case JsonMalformed => return Some(AppListUndecodable);
        case Fetched(list) => apps := list;
      }
      var appPairs := AppPairs(apps);
      var i := 0;
      while i < |apps|
        invariant 0 <= i <= |apps|
        invariant games.games == SetAll(old(games.games), appPairs[..i])
        invariant lastUpdate == Some(now)
      {
        SetAllNext(old(games.games), appPairs, i);
        var _ := games.Set(FormatNat(apps[i].appid), apps[i].name);
        i := i + 1;
      }
      assert appPairs[..i] == appPairs;
      var fetched := games.games;
      var ovs := settings.appidOverrides;
      var ovPairs := OverridePairs(ovs);
      var j := 0;
      while j < |ovs|
        invariant 0 <= j <= |ovs|
        invariant games.games == SetAll(fetched, ovPairs[..j])
        invariant lastUpdate == Some(now)
      {
        SetAllNext(fetched, ovPairs, j);
        var _ := games.Set(ovs[j].appid, ovs[j].name);
        j := j + 1;
      }
      assert ovPairs[..j] == ovPairs;
      var snapshot := games.GetMap();
      if !saveOk {
        return Some(CacheSaveFailed);
      }
      return None;
    }

    /**
     * getGameName: ".stfolder" as is, then a cached name, then the non-Steam placeholder for
     * appids longer than 18 characters, then the name a refresh produced, else the appid
     * itself. The error result is always nil.
     */
    method GetGameName(appid: string, now: int, fetch: AppListFetch, saveOk: bool) returns (name: string, err: Option<UpdateError>)
      requires games != null
      modifies this`lastUpdate, games`games
      ensures err == None
      ensures appid == ".stfolder" ==>
        name == appid && games.games == old(games.games) && lastUpdate == old(lastUpdate)
      ensures appid != ".stfolder" && old(games.Get(appid)) != appid ==>
        name == old(games.Get(appid)) && games.games == old(games.games) && lastUpdate == old(lastUpdate)
      ensures appid != ".stfolder" && old(games.Get(appid)) == appid && |appid| > 18 ==>
        name == NonSteamName(appid) && games.games == old(games.games)[appid := name] && lastUpdate == old(lastUpdate)
      ensures appid != ".stfolder" && old(games.Get(appid)) == appid && |appid| <= 18 ==>
        (lastUpdate == (if Throttled(old(lastUpdate), now) then old(lastUpdate) else Some(now))
         && games.games == UpdatedGames(old(games.games), old(lastUpdate), now, fetch, settings.appidOverrides)
         && name == if UpdateOutcome(old(lastUpdate), now, fetch, saveOk) == None && games.Get(appid) != appid
                    then games.Get(appid) else appid)
    {
      err := None;
      if appid == ".stfolder" {
        return appid, None;
      }
      name := games.Get(appid);
      if name != appid {
        return name, None;
      }
      if |appid| > 18 {
        name := games.Set(appid, NonSteamName(appid));
        return name, None;
      }
      var updateErr := UpdateGamesJson(now, fetch, saveOk);
      if updateErr == None {
        name := games.Get(appid);
        if name != appid {
          return name, None;
        }
      }
      return appid, None;
    }
  }

  /** After a refresh that set a name for an uncached appid, `getGameName` returns that name. */
  lemma RefreshedNameFound(games: map<string, string>, apps: seq<App>, ovs: seq<Override>, appid: string, i: int)
    requires 0 <= i < |ovs| && LastSetAt(OverridePairs(ovs), appid, i) && ovs[i].name != appid
    ensures var g := Refreshed(games, apps, ovs); appid in g && g[appid] != appid
  {
    OverridesWin(games, apps, ovs, i);
  }
}
