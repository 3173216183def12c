/** `match_shots`: one shot-data request per listed match, the home and away shots of
    each match stacked and tagged with its league, and all matches stacked in order. */
module Shots {
  import opened Frames
  import opened Discovery

  /** What the provider returns for one match: the shot records of each side
      (`match_data['h']` and `match_data['a']`). */
  datatype ShotGroups = ShotGroups(home: seq<Row>, away: seq<Row>)

  /** The shot data the provider holds, by match id. An id it does not know makes the
      request raise. */
  type Provider = map<Value, ShotGroups>

  /** The rows of `df_match`: home shots, then away shots, each with a `league` field. */
  function MatchRows(groups: ShotGroups, league: string): (rows: seq<Row>)
    ensures |rows| == |groups.home| + |groups.away|
    ensures forall j | 0 <= j < |groups.home| :: rows[j] == groups.home[j]["league" := Str(league)]
    ensures forall j | 0 <= j < |groups.away| ::
      rows[|groups.home| + j] == groups.away[j]["league" := Str(league)]
  {
    var both := groups.home + groups.away;
    seq(|both|, i requires 0 <= i < |both| => both[i]["league" := Str(league)])
  }

  /** Every match's rows, in the order of the list, or the first request that fails. */
  function Fetch(entries: seq<MatchEntry>, provider: Provider): Result<seq<seq<Row>>> {
    if entries == [] then Ok([])
    else if entries[0].id !in provider then Err(FetchFailed(entries[0].id))
    else
      match Fetch(entries[1..], provider)
      case Err(e) => Err(e)
      case Ok(rest) => Ok([MatchRows(provider[entries[0].id], entries[0].league)] + rest)
  }

  /** What `match_shots` returns, or the exception it raises: the failed request, or, for
      an empty list, the `ValueError` of concatenating nothing. */
  function Shots(entries: seq<MatchEntry>, provider: Provider): Result<seq<Row>> {
    if entries == [] then Err(NoObjectsToConcatenate)
    else
      match Fetch(entries, provider)
      case Err(e) => Err(e)
      case Ok(batches) => Ok(Flatten(batches))
  }

  predicate AllKnown(entries: seq<MatchEntry>, provider: Provider) {
    forall m | 0 <= m < |entries| :: entries[m].id in provider
  }

  /** The number of shots the provider holds for the listed matches. */
  function ShotTotal(entries: seq<MatchEntry>, provider: Provider): nat
    requires AllKnown(entries, provider)
  {
    if entries == [] then 0
    else
      var g := provider[entries[0].id];
      |g.home| + |g.away| + ShotTotal(entries[1..], provider)
  }

  /** `match_shots(match_id_list)`, with the provider's data given. */
  method MatchShots(entries: seq<MatchEntry>, provider: Provider) returns (r: Result<ShotFrame>)
    ensures r.Ok? <==> Shots(entries, provider).Ok?
    ensures r.Err? ==> r.error == Shots(entries, provider).error
    ensures r.Ok? ==> fresh(r.value) && r.value.rows == Shots(entries, provider).value
  {
    var matchFrames: seq<ShotFrame> := [];
    for k := 0 to |entries|
      invariant |matchFrames| == k
      invariant AllKnown(entries[..k], provider)
      invariant forall m | 0 <= m < k ::
        matchFrames[m].rows == MatchRows(provider[entries[m].id], entries[m].league)
    {
      var id := entries[k];
      if id.id !in provider {
        FetchFirstMissing(entries, provider, k);
        return Err(FetchFailed(id.id));
      }
      var dfMatch := MatchFrame(provider[id.id], id.league);
      matchFrames := matchFrames + [dfMatch];
    }
    assert entries[..|entries|] == entries;
    var all := Concat(matchFrames);
    if all.Err? {
      return Err(NoObjectsToConcatenate);
    }
    FetchOk(entries, provider);
    assert RowsOf(matchFrames) == Fetch(entries, provider).value;
    return all;
  }

  /** One match's frame: the home and away frames concatenated, then the league column
      set on every row. */
  method MatchFrame(matchData: ShotGroups, league: string) returns (dfMatch: ShotFrame)
    ensures fresh(dfMatch) && dfMatch.rows == MatchRows(matchData, league)
  {
    var dfHome := new ShotFrame(matchData.home);
    var dfAway := new ShotFrame(matchData.away);
    var both := Concat([dfHome, dfAway]);
    dfMatch := both.value;
    FlattenPair(matchData.home, matchData.away);
    dfMatch.Broadcast("league", Str(league));
  }

  // ---------------------------------------------------------------------------------
  // Properties.

  /** The requests all succeed exactly when the provider knows every id; then there is
      one row list per match, in the order of the list. */
  lemma {:induction false} FetchOk(entries: seq<MatchEntry>, provider: Provider)
    ensures Fetch(entries, provider).Ok? <==> AllKnown(entries, provider)
    ensures Fetch(entries, provider).Ok? ==>
      |Fetch(entries, provider).value| == |entries|
      && forall m | 0 <= m < |entries| ::
        Fetch(entries, provider).value[m] == MatchRows(provider[entries[m].id], entries[m].league)
  {
    if entries != [] {
      FetchOk(entries[1..], provider);
      assert forall m | 1 <= m < |entries| :: entries[1..][m - 1] == entries[m];
    }
  }

  /** The exception is the first id the provider does not know. */
  lemma {:induction false} FetchFirstMissing(entries: seq<MatchEntry>, provider: Provider, k: nat)
    requires k < |entries| && entries[k].id !in provider
    requires AllKnown(entries[..k], provider)
    ensures Fetch(entries, provider) == Err(FetchFailed(entries[k].id))
    decreases k
  {
    if k > 0 {
      assert entries[0] == entries[..k][0];
      assert entries[1..][..k - 1] == entries[..k][1..];
      FetchFirstMissing(entries[1..], provider, k - 1);
    }
  }

  /** `match_shots` returns exactly when the list is non-empty and every request
      succeeds. */
  lemma ShotsOkIff(entries: seq<MatchEntry>, provider: Provider)
    ensures Shots(entries, provider).Ok? <==> entries != [] && AllKnown(entries, provider)
    ensures entries == [] ==> Shots(entries, provider) == Err(NoObjectsToConcatenate)
  {
    FetchOk(entries, provider);
  }

  /** A failed request is reported for the first match whose id the provider lacks. */
  lemma ShotsFirstMissing(entries: seq<MatchEntry>, provider: Provider, k: nat)
    requires k < |entries| && entries[k].id !in provider
    requires forall m | 0 <= m < k :: entries[m].id in provider
    ensures Shots(entries, provider) == Err(FetchFailed(entries[k].id))
  {
    FetchFirstMissing(entries, provider, k);
  }

  /** The table has one row per shot of every listed match. */
  lemma ShotsRowCount(entries: seq<MatchEntry>, provider: Provider)
    requires entries != [] && AllKnown(entries, provider)
    ensures Shots(entries, provider).Ok?
    ensures |Shots(entries, provider).value| == ShotTotal(entries, provider)
  {
    FetchOk(entries, provider);
    BatchSizes(entries, provider);
  }

  lemma {:induction false} BatchSizes(entries: seq<MatchEntry>, provider: Provider)
    requires AllKnown(entries, provider)
    ensures Fetch(entries, provider).Ok?
    ensures TotalRows(Fetch(entries, provider).value) == ShotTotal(entries, provider)
  {
    FetchOk(entries, provider);
    if entries != [] {
      assert AllKnown(entries[1..], provider) by {
        assert forall m | 0 <= m < |entries| - 1 :: entries[1..][m] == entries[m + 1];
      }
      BatchSizes(entries[1..], provider);
    }
  }

  /** Where the shots of match `m` start: after every shot of the matches before it. */
  function Offset(entries: seq<MatchEntry>, provider: Provider, m: nat): nat
    requires m <= |entries| && AllKnown(entries, provider)
  {
    assert AllKnown(entries[..m], provider) by {
      assert forall i | 0 <= i < m :: entries[..m][i] == entries[i];
    }
    ShotTotal(entries[..m], provider)
  }

  /** Match `m`'s home shots come first, at its offset, each as the provider sent it with
      the match's league added and every other field unchanged. */
  lemma ShotsHomeRow(entries: seq<MatchEntry>, provider: Provider, m: nat, j: nat)
    requires entries != [] && AllKnown(entries, provider) && m < |entries|
    requires j < |provider[entries[m].id].home|
    ensures Shots(entries, provider).Ok?
    ensures Offset(entries, provider, m) + j < |Shots(entries, provider).value|
    ensures Shots(entries, provider).value[Offset(entries, provider, m) + j]
      == provider[entries[m].id].home[j]["league" := Str(entries[m].league)]
  {
    ShotsAt(entries, provider, m, j);
  }

  /** Match `m`'s away shots follow its home shots, tagged the same way. */
  lemma ShotsAwayRow(entries: seq<MatchEntry>, provider: Provider, m: nat, j: nat)
    requires entries != [] && AllKnown(entries, provider) && m < |entries|
    requires j < |provider[entries[m].id].away|
    ensures Shots(entries, provider).Ok?
    ensures Offset(entries, provider, m) + |provider[entries[m].id].home| + j < |Shots(entries, provider).value|
    ensures Shots(entries, provider).value[Offset(entries, provider, m) + |provider[entries[m].id].home| + j]
      == provider[entries[m].id].away[j]["league" := Str(entries[m].league)]
  {
    var g := provider[entries[m].id];
    var k := |g.home| + j;
    assert MatchRows(g, entries[m].league)[k] == g.away[j]["league" := Str(entries[m].league)];
    ShotsAt(entries, provider, m, k);
  }

  /** Row `k` of match `m`'s frame sits `k` rows past the match's offset. */
  lemma ShotsAt(entries: seq<MatchEntry>, provider: Provider, m: nat, k: nat)
    requires entries != [] && AllKnown(entries, provider) && m < |entries|
    requires k < |MatchRows(provider[entries[m].id], entries[m].league)|
    ensures Shots(entries, provider).Ok?
    ensures Offset(entries, provider, m) + k < |Shots(entries, provider).value|
    ensures Shots(entries, provider).value[Offset(entries, provider, m) + k]
      == MatchRows(provider[entries[m].id], entries[m].league)[k]
  {
    FetchOk(entries, provider);
    OffsetIsPrefixTotal(entries, provider, m);
    FlattenIndex(Fetch(entries, provider).value, m, k);
  }

  /** The row lists before match `m` hold `Offset` rows. */
  lemma OffsetIsPrefixTotal(entries: seq<MatchEntry>, provider: Provider, m: nat)
    requires AllKnown(entries, provider) && m <= |entries|
    ensures Fetch(entries, provider).Ok?
    ensures m <= |Fetch(entries, provider).value|
    ensures TotalRows(Fetch(entries, provider).value[..m]) == Offset(entries, provider, m)
  {
    FetchOk(entries, provider);
    assert AllKnown(entries[..m], provider) by {
      assert forall i | 0 <= i < m :: entries[..m][i] == entries[i];
    }
    FetchOk(entries[..m], provider);
    assert Fetch(entries, provider).value[..m] == Fetch(entries[..m], provider).value;
    BatchSizes(entries[..m], provider);
  }

  /** Every row of the table is a row of some listed match, and carries a `league` field
      naming a listed league. */
  lemma ShotsTagged(entries: seq<MatchEntry>, provider: Provider, i: nat)
    requires Shots(entries, provider).Ok? && i < |Shots(entries, provider).value|
    ensures exists m | 0 <= m < |entries| ::
      (&& entries[m].id in provider
       && Shots(entries, provider).value[i] in MatchRows(provider[entries[m].id], entries[m].league)
       && "league" in Shots(entries, provider).value[i]
       && Shots(entries, provider).value[i]["league"] == Str(entries[m].league))
  {
    ShotsOkIff(entries, provider);
    FetchOk(entries, provider);
    var batches := Fetch(entries, provider).value;
    FlattenOrigin(batches, i);
    var m, j :| 0 <= m < |batches| && 0 <= j < |batches[m]|
      && i == TotalRows(batches[..m]) + j && Flatten(batches)[i] == batches[m][j];
    TaggedRow(provider[entries[m].id], entries[m].league, j);
  }

  /** Each row of a match carries that match's league. */
  lemma TaggedRow(g: ShotGroups, league: string, j: nat)
    requires j < |MatchRows(g, league)|
    ensures "league" in MatchRows(g, league)[j] && MatchRows(g, league)[j]["league"] == Str(league)
  {
    if j >= |g.home| {
      assert MatchRows(g, league)[|g.home| + (j - |g.home|)] == g.away[j - |g.home|]["league" := Str(league)];
    }
  }
}
