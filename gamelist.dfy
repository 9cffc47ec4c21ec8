/**
 * The appid-to-display-name table of gamelist.go. The table is a mutable map; the mutex that
 * guards it in gamelist.go is not modelled (every operation runs single-threaded here).
 */
module GameLists {
  import opened Results

  /** What opening and decoding the cache file produced. */
  datatype GameFile =
    | Missing                              // the file does not exist
    | Unreadable                           // opening failed for another reason
    | Malformed                            // the JSON decoder failed
    | Decoded(games: map<string, string>)  // the decoded JSON object

  datatype LoadError = OpenError | DecodeError

  /** `g.games[key] = val` applied to every pair of `list`: `list` wins on shared keys. */
  function Overlay(games: map<string, string>, list: map<string, string>): (r: map<string, string>)
    ensures r.Keys == games.Keys + list.Keys
    ensures forall k :: k in list ==> r[k] == list[k]
    ensures forall k :: k in games && k !in list ==> r[k] == games[k]
  {
    games + list
  }

  class GameList {
    var games: map<string, string>
    var filename: string

    constructor (filename: string, games: map<string, string>)
      ensures this.filename == filename && this.games == games
    {
      this.filename := filename;
      this.games := games;
    }

    /** The stored name of `id`, or `id` itself when none is stored. */
    function Get(id: string): (name: string)
      reads this
      ensures id in games ==> name == games[id]
      ensures id !in games ==> name == id
    {
      if id in games then games[id] else id
    }

    /** Stores `val` under `id`, overwriting any earlier name, and returns `val`. */
    method Set(id: string, val: string) returns (r: string)
      modifies this`games
      ensures r == val
      ensures games == old(games)[id := val]
      ensures Get(id) == val
      ensures forall other :: other != id ==> Get(other) == old(Get(other))
    {
      games := games[id := val];
      r := val;
    }

    /** Copies every entry of `list` into the table, one key at a time. */
    method Update(list: map<string, string>)
      modifies this`games
      ensures games == Overlay(old(games), list)
      ensures forall k :: k in list ==> Get(k) == list[k]
      ensures forall k :: k !in list ==> Get(k) == old(Get(k))
    {
      var todo := list.Keys;
      while todo != {}
        invariant todo <= list.Keys
        invariant games == old(games) + map k | k in list.Keys - todo :: list[k]
        decreases todo
      {
        var k :| k in todo;
        games := games[k := list[k]];
        todo := todo - {k};
      }
      assert list.Keys - todo == list.Keys;
      assert games == old(games) + list;
    }

    /** A fresh copy of the table, built entry by entry. */
    method GetMap() returns (r: map<string, string>)
      ensures r == games
    {
      r := map[];
      var todo := games.Keys;
      while todo != {}
        invariant todo <= games.Keys
        invariant r == map k | k in games.Keys - todo :: games[k]
        decreases todo
      {
        var k :| k in todo;
        r := r[k := games[k]];
        todo := todo - {k};
      }
      assert games.Keys - todo == games.Keys;
    }

    /** The number of distinct ids stored. */
    function Length(): (n: nat)
      reads this
      ensures n == |games.Keys|
    {
      |games|
    }
  }

  /** A name differs from its id exactly when a different name is stored for it. */
  lemma CachedName(g: GameList, id: string)
    ensures g.Get(id) != id <==> id in g.games && g.games[id] != id
  {
  }

  /** Setting a new id grows the table by one; overwriting keeps its size. */
  lemma SetLength(games: map<string, string>, id: string, val: string)
    ensures |games[id := val]| == if id in games then |games| else |games| + 1
  {
    if id in games {
      assert games[id := val].Keys == games.Keys;
    } else {
      assert games[id := val].Keys == games.Keys + {id};
    }
  }

  /**
   * LoadGameList: a missing file yields an empty table bound to `filename` and no error; any
   * other open or decode failure yields no table and an error; otherwise the decoded table.
   */
  method LoadGameList(filename: string, file: GameFile) returns (gl: GameList?, err: Option<LoadError>)
    ensures file.Missing? ==> err == None && gl != null && fresh(gl) && gl.filename == filename && gl.games == map[]
    ensures file.Unreadable? ==> gl == null && err == Some(OpenError)
    ensures file.Malformed? ==> gl == null && err == Some(DecodeError)
    ensures file.Decoded? ==> err == None && gl != null && fresh(gl) && gl.filename == filename && gl.games == file.games
  {
    gl := new GameList(filename, map[]);
    match file {
      case Missing =>
        err := None;
      case Unreadable =>
        gl, err := null, Some(OpenError);
      case Malformed =>
        gl, err := null, Some(DecodeError);
      case Decoded(games) =>
        gl.games := games;
        err := None;
    }
  }
}
