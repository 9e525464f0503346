/** The discovery filter: which games a listing request may see, and in
    what order and how many of them the scan yields. */
module Discovery {
  import opened Games

  /** A game with this many players or more is never listed. */
  const ListingPlayerLimit := 10

  /** The first stage of the scan: the game is public, has not started and
      still has room. */
  predicate Waiting(g: Game)
    reads g
  {
    g.isPublic && g.gameState == NotStarted && g.playerCount < ListingPlayerLimit
  }

  /** The second stage: the keyword tag must equal the requested language
      and, when a nonzero impostor count is requested, the game's impostor
      count must equal it. The map identifier is not compared. */
  predicate OptionsMatch(o: GameOptions, impostorCount: int, language: Keywords)
  {
    o.keywords == language && (impostorCount == 0 || o.numImpostors == impostorCount)
  }

  /** A game that a listing request with these criteria may yield. */
  predicate Listed(g: Game, impostorCount: int, language: Keywords)
    reads g
  {
    Waiting(g) && OptionsMatch(g.options, impostorCount, language)
  }

  /** The games of `gs` that the criteria admit, in the order of `gs`. */
  function Filter(gs: seq<Game>, impostorCount: int, language: Keywords): (r: seq<Game>)
    reads gs
    ensures |r| <= |gs|
    ensures forall i :: 0 <= i < |r| ==> r[i] in gs && Listed(r[i], impostorCount, language)
    ensures forall j :: 0 <= j < |gs| && Listed(gs[j], impostorCount, language) ==> gs[j] in r
  {
    if gs == [] then []
    else
      assert gs == [gs[0]] + gs[1..];
      (if Listed(gs[0], impostorCount, language) then [gs[0]] else [])
        + Filter(gs[1..], impostorCount, language)
  }

  function Min(a: int, b: int): (m: int) { if a <= b then a else b }

  /** What a listing request yields when scanning `gs` for at most `count`
      results: the first `count` admitted games when `count` is positive,
      and every admitted game otherwise (the counter never meets a
      nonpositive limit). */
  function Listings(gs: seq<Game>, impostorCount: int, language: Keywords, count: int): (r: seq<Game>)
    reads gs
    ensures r <= Filter(gs, impostorCount, language)
    ensures forall i :: 0 <= i < |r| ==> r[i] in gs && Listed(r[i], impostorCount, language)
    ensures count >= 1 ==> |r| == Min(count, |Filter(gs, impostorCount, language)|)
    ensures count <= 0 ==> r == Filter(gs, impostorCount, language)
  {
    var f := Filter(gs, impostorCount, language);
    if 1 <= count < |f| then f[..count] else f
  }

  /** The admitted games are drawn from the scanned ones: no game appears
      more often than it was scanned. */
  lemma {:induction false} FilterSubMultiset(gs: seq<Game>, impostorCount: int, language: Keywords)
    ensures multiset(Filter(gs, impostorCount, language)) <= multiset(gs)
  {
    if gs != [] {
      assert gs == [gs[0]] + gs[1..];
      FilterSubMultiset(gs[1..], impostorCount, language);
    }
  }

  /** Scanning two stretches of games one after the other admits what each
      stretch admits, in that order. */
  lemma {:induction false} FilterAppend(xs: seq<Game>, ys: seq<Game>, impostorCount: int, language: Keywords)
    ensures Filter(xs + ys, impostorCount, language)
         == Filter(xs, impostorCount, language) + Filter(ys, impostorCount, language)
  {
    if xs != [] {
      assert (xs + ys)[1..] == xs[1..] + ys;
      FilterAppend(xs[1..], ys, impostorCount, language);
    } else {
      assert xs + ys == ys;
    }
  }

  /** Scanning one more game appends it exactly when it is admitted. */
  lemma FilterSnoc(xs: seq<Game>, x: Game, impostorCount: int, language: Keywords)
    ensures Filter(xs + [x], impostorCount, language)
         == Filter(xs, impostorCount, language) + (if Listed(x, impostorCount, language) then [x] else [])
  {
    FilterAppend(xs, [x], impostorCount, language);
    assert [x][1..] == [];
  }

  /** Scanning a prefix of the games admits a prefix of what scanning all of
      them admits. */
  lemma FilterPrefix(gs: seq<Game>, k: nat, impostorCount: int, language: Keywords)
    requires k <= |gs|
    ensures Filter(gs[..k], impostorCount, language) <= Filter(gs, impostorCount, language)
  {
    assert gs == gs[..k] + gs[k..];
    FilterAppend(gs[..k], gs[k..], impostorCount, language);
  }

  /** Early exit: once a prefix of the scan has admitted `count` games, the
      games after it do not change what the request yields. */
  lemma StopsEarly(gs: seq<Game>, k: nat, impostorCount: int, language: Keywords, count: int)
    requires 1 <= count && k <= |gs|
    requires |Filter(gs[..k], impostorCount, language)| >= count
    ensures Listings(gs, impostorCount, language, count)
         == Listings(gs[..k], impostorCount, language, count)
  {
    FilterPrefix(gs, k, impostorCount, language);
  }

  /** Where a scan may end: after the last game, or right after the
      `count`-th admitted game. Either way the admitted games so far are what
      the request yields. */
  lemma ScanComplete(gs: seq<Game>, k: nat, impostorCount: int, language: Keywords, count: int)
    requires k <= |gs|
    requires count >= 1 ==> |Filter(gs[..k], impostorCount, language)| <= count
    requires k == |gs| || (count >= 1 && |Filter(gs[..k], impostorCount, language)| == count)
    ensures Listings(gs, impostorCount, language, count) == Filter(gs[..k], impostorCount, language)
  {
    if k == |gs| {
      assert gs[..k] == gs;
    } else {
      StopsEarly(gs, k, impostorCount, language, count);
    }
  }
}
