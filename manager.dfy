/** The session registry: a table from numeric game code to game, and the
    claims this node holds in the cluster's node directory (display code to
    the address of the owning node). */
module Manager {
  import opened Games
  import opened Discovery

  /** The public endpoint a node advertises; fixed at startup. */
  datatype Endpoint = Endpoint(address: string, port: int)

  /** The two tables the registry touches: the local games by numeric code,
      and the node directory by display code. */
  datatype Tables = Tables(games: map<int, Game>, directory: map<string, Endpoint>)

  /** Both claims are free: nobody holds the display code in the directory
      and no local game holds the numeric code. */
  predicate CanClaim(t: Tables, code: int, name: string)
  {
    name !in t.directory && code !in t.games
  }

  /** The tables after a successful creation: the game under its code, and
      its display code pointing at this node. */
  function Claimed(t: Tables, code: int, name: string, game: Game, ip: Endpoint): (u: Tables)
  {
    Tables(t.games[code := game], t.directory[name := ip])
  }

  /** The tables after a removal: the local entry and the directory claim
      are both gone, whether or not they were there. */
  function Released(t: Tables, code: int, name: string): (u: Tables)
  {
    Tables(t.games - {code}, t.directory - {name})
  }

  /** Every local entry records the code it is stored under. */
  ghost predicate CodesMatch(games: map<int, Game>)
  {
    forall c :: c in games ==> games[c].code == c
  }

  /** Every local game's display code is claimed in the directory by this
      node. */
  ghost predicate Owned(t: Tables, nameOf: int -> string, ip: Endpoint)
  {
    forall c :: c in t.games ==> nameOf(c) in t.directory && t.directory[nameOf(c)] == ip
  }

  /** Distinct numeric codes have distinct display codes. */
  ghost predicate Injective(nameOf: int -> string)
  {
    forall a, b :: a != b ==> nameOf(a) != nameOf(b)
  }

  /** No two local games share a display code. */
  ghost predicate NamesDistinct(t: Tables, nameOf: int -> string)
  {
    forall a, b :: a in t.games && b in t.games && a != b ==> nameOf(a) != nameOf(b)
  }

  /** Removing a game right after creating it restores both tables. */
  lemma ReleaseUndoesClaim(t: Tables, code: int, name: string, game: Game, ip: Endpoint)
    requires CanClaim(t, code, name)
    ensures Released(Claimed(t, code, name, game, ip), code, name) == t
  {
  }

  /** A second removal of the same code changes nothing. */
  lemma ReleaseIdempotent(t: Tables, code: int, name: string)
    ensures Released(Released(t, code, name), code, name) == Released(t, code, name)
  {
  }

  /** Once a code is created, neither the same numeric code nor the same
      display code can be created again until it is removed. */
  lemma ClaimIsExclusive(t: Tables, code: int, name: string, game: Game, ip: Endpoint, code': int, name': string)
    requires code' == code || name' == name
    ensures !CanClaim(Claimed(t, code, name, game, ip), code', name')
  {
  }

  /** Creation keeps the directory claims of all local games. */
  lemma ClaimKeepsOwned(t: Tables, nameOf: int -> string, ip: Endpoint, code: int, game: Game)
    requires Owned(t, nameOf, ip)
    ensures Owned(Claimed(t, code, nameOf(code), game, ip), nameOf, ip)
  {
  }

  /** Removal keeps the directory claims of the remaining local games,
      provided none of them shares the removed game's display code. */
  lemma ReleaseKeepsOwned(t: Tables, nameOf: int -> string, ip: Endpoint, code: int)
    requires Owned(t, nameOf, ip)
    requires forall c :: c in t.games && c != code ==> nameOf(c) != nameOf(code)
    ensures Owned(Released(t, code, nameOf(code)), nameOf, ip)
  {
  }

  /** A creation whose display code is free keeps the display codes of the
      local games distinct: while every local game's display code is in the
      directory, a free display code belongs to no local game. */
  lemma ClaimKeepsNamesDistinct(t: Tables, nameOf: int -> string, ip: Endpoint, code: int, game: Game)
    requires NamesDistinct(t, nameOf) && Owned(t, nameOf, ip)
    requires CanClaim(t, code, nameOf(code))
    ensures NamesDistinct(Claimed(t, code, nameOf(code), game, ip), nameOf)
  {
    var u := Claimed(t, code, nameOf(code), game, ip);
    forall a, b | a in u.games && b in u.games && a != b
      ensures nameOf(a) != nameOf(b)
    {
      if a != code && b != code {
        assert a in t.games && b in t.games;
      } else if a == code {
        assert b in t.games && nameOf(b) in t.directory;
      } else {
        assert a in t.games && nameOf(a) in t.directory;
      }
    }
  }

  /** Removal keeps the display codes of the local games distinct. */
  lemma ReleaseKeepsNamesDistinct(t: Tables, nameOf: int -> string, code: int)
    requires NamesDistinct(t, nameOf)
    ensures NamesDistinct(Released(t, code, nameOf(code)), nameOf)
  {
  }

  /** Why removal needs distinct display codes: removing a code that has no
      local game still releases its display code, and if a live game shares
      that display code its claim goes with it. */
  lemma ReleaseOfAbsentCodeCanDropClaim(g: Game, ip: Endpoint)
    ensures var nameOf := (c: int) => "A";
            var t := Tables(map[1 := g], map["A" := ip]);
            && NamesDistinct(t, nameOf) && Owned(t, nameOf, ip)
            && !Owned(Released(t, 2, nameOf(2)), nameOf, ip)
  {
    var nameOf := (c: int) => "A";
    var u := Released(Tables(map[1 := g], map["A" := ip]), 2, nameOf(2));
    assert 1 in u.games && nameOf(1) !in u.directory;
  }

  /** `order` lists every key of `keys` exactly once: the order in which
      the dictionary's enumerator visits its entries. */
  ghost predicate IsEnumeration(order: seq<int>, keys: set<int>)
  {
    && (forall i :: 0 <= i < |order| ==> order[i] in keys)
    && (forall k :: k in keys ==> k in order)
    && (forall i, j :: 0 <= i < j < |order| ==> order[i] != order[j])
  }

  /** The games of `m`, in the order the keys appear in `order`. */
  function Enumerate(m: map<int, Game>, order: seq<int>): (gs: seq<Game>)
    requires forall i :: 0 <= i < |order| ==> order[i] in m
    ensures |gs| == |order|
    ensures forall i :: 0 <= i < |order| ==> gs[i] == m[order[i]]
    ensures forall i :: 0 <= i < |gs| ==> gs[i] in m.Values
  {
    seq(|order|, i requires 0 <= i < |order| => m[order[i]])
  }

  /** A scan in enumeration order visits every registered game. */
  lemma EnumerateVisitsAll(m: map<int, Game>, order: seq<int>, k: int)
    requires IsEnumeration(order, m.Keys)
    requires k in m
    ensures m[k] in Enumerate(m, order)
  {
    var i :| 0 <= i < |order| && order[i] == k;
    assert Enumerate(m, order)[i] == m[k];
  }

  /** A game found anywhere in the scan is a registered game. */
  lemma ScannedIsRegistered(m: map<int, Game>, order: seq<int>, g: Game)
    requires forall i :: 0 <= i < |order| ==> order[i] in m
    requires g in Enumerate(m, order)
    ensures g in m.Values
  {
    var i :| 0 <= i < |order| && Enumerate(m, order)[i] == g;
  }

  /** Every game a listing request yields is registered and passes the
      criteria. */
  lemma ListingsAreRegistered(m: map<int, Game>, order: seq<int>, impostorCount: int, language: Keywords, count: int)
    requires forall i :: 0 <= i < |order| ==> order[i] in m
    ensures var r := Listings(Enumerate(m, order), impostorCount, language, count);
            forall j :: 0 <= j < |r| ==> r[j] in m.Values && Listed(r[j], impostorCount, language)
  {
    var r := Listings(Enumerate(m, order), impostorCount, language, count);
    forall j | 0 <= j < |r|
      ensures r[j] in m.Values && Listed(r[j], impostorCount, language)
    {
      ScannedIsRegistered(m, order, r[j]);
    }
  }

  class GameManager {
    /** The address this node records for the games it owns. */
    const publicIp: Endpoint
    /** The display code of a numeric code (`GameCode.IntToGameName`). */
    const gameName: int -> string
    /** The local games, by numeric code. */
    var games: map<int, Game>
    /** The node directory, by display code. */
    var directory: map<string, Endpoint>

    /** Every entry records its own code, display codes identify numeric
        codes, and every local game's display code is claimed for this node. */
    ghost predicate Valid()
      reads this
    {
      && CodesMatch(games)
      && Injective(gameName)
      && Owned(State(), gameName, publicIp)
    }

    function State(): (t: Tables)
      reads this
    {
      Tables(games, directory)
    }

    /** A registry with no games, talking to a node directory that may
        already hold other nodes' claims. */
    constructor (publicIp: Endpoint, gameName: int -> string, directory: map<string, Endpoint>)
      requires Injective(gameName)
      ensures Valid()
      ensures this.publicIp == publicIp && this.gameName == gameName
      ensures games == map[] && this.directory == directory
    {
      this.publicIp := publicIp;
      this.gameName := gameName;
      this.directory := directory;
      games := map[];
    }

    /** One attempt to create a game under the generated `code`. The
        directory is asked first; only when it has no entry for the display
        code is the local insert tried, and only when that succeeds is the
        directory claim written. */
    method Create(code: int, options: GameOptions) returns (r: Game?)
      requires Valid()
      modifies this
      ensures Valid()
      ensures r != null <==> old(CanClaim(State(), code, gameName(code)))
      ensures r != null ==>
                && fresh(r) && r.code == code && r.options == options
                && State() == Claimed(old(State()), code, gameName(code), r, publicIp)
                && Find(code) == r
      ensures r == null ==> State() == old(State())
    {
      var gameCodeStr := gameName(code);
      var game := new Game(code, options);
      if gameCodeStr !in directory {
        // the local insert-if-absent
        var added := code !in games;
        if added {
          ClaimKeepsOwned(State(), gameName, publicIp, code, game);
          games := games[code := game];
          directory := directory[gameCodeStr := publicIp];
          return game;
        }
      }
      return null;
    }

    /** The game stored under `code`, or null when there is none. */
    function Find(code: int): (r: Game?)
      reads this
      ensures r != null <==> code in games
      ensures r != null ==> r == games[code]
      ensures Valid() && r != null ==> r.code == code
    {
      if code in games then games[code] else null
    }

    /** The games a listing request yields, scanning the local games in the
        order `order` gives their codes. `mapId` is accepted and ignored.
        The dictionary's enumerator lists every code once (`IsEnumeration`,
        under which `EnumerateVisitsAll` holds); the loop is proved for any
        sequence of registered codes. */
    method FindListings(order: seq<int>, mapId: Byte, impostorCount: int, language: Keywords, count: int)
      returns (result: seq<Game>)
      requires forall i :: 0 <= i < |order| ==> order[i] in games
      ensures result == Listings(Enumerate(games, order), impostorCount, language, count)
      ensures forall i :: 0 <= i < |result| ==> result[i] in games.Values && Listed(result[i], impostorCount, language)
      ensures count >= 1 ==> |result| <= count
    {
      ghost var gs := Enumerate(games, order);
      var results := 0;
      result := [];
      var i := 0;
      while i < |order|
        invariant i <= |order|
        invariant result == Filter(gs[..i], impostorCount, language)
        invariant results == |result|
        invariant count >= 1 ==> results < count
      {
        var game := games[order[i]];
        assert gs[..i + 1] == gs[..i] + [game];
        FilterSnoc(gs[..i], game, impostorCount, language);
        i := i + 1;
        if !Waiting(game) {
          continue;
        }
        if !OptionsMatch(game.options, impostorCount, language) {
          continue;
        }
        result := result + [game];
        results := results + 1;
        if results == count {
          break;
        }
      }
      ScanComplete(gs, i, impostorCount, language, count);
      ListingsAreRegistered(games, order, impostorCount, language, count);
    }

    /** Releases the directory claim for the display code, then drops the
        local entry; neither needs to exist. */
    method Remove(code: int)
      requires Valid()
      modifies this
      ensures Valid()
      ensures State() == Released(old(State()), code, gameName(code))
      ensures Find(code) == null
    {
      ReleaseKeepsOwned(State(), gameName, publicIp, code);
      directory := directory - {gameName(code)};
      games := games - {code};
    }
  }
}
