/** `ShotDataScraper.match_id_retrieval`: for every league, every match the provider lists
    whose kick-off is earlier than the clock reading taken for it becomes an entry
    `{'id': match['id'], 'league': league}`, in the order the loops visit them.

    The provider's replies and the clock are parameters: `responses[i]` is what
    `get_match_data` returned for `leagues[i]` and the season, and `clock[i][j]` is what
    `datetime.today()` returned while the loop looked at `responses[i][j]`. */
module Discovery {
  import opened Text
  import opened Frames
  import opened Dates

  /** One entry of `match_id_list`. */
  datatype MatchEntry = MatchEntry(id: Value, league: string)

  /** A listed match as the inner loop meets it: the record, what `strptime` made of its
      `datetime` field, the clock reading taken for it, and the league it was listed under. */
  datatype Candidate = Candidate(record: Row, kickOff: Result<DateTime>, today: DateTime, league: string)

  function CandidateOf(record: Row, today: DateTime, league: string): (c: Candidate)
    ensures c.record == record && c.today == today && c.league == league
    ensures c.kickOff == KickOff(record)
  {
    Candidate(record, KickOff(record), today, league)
  }

  /** One reply per league and one clock reading per listed match. */
  predicate Shaped(leagues: seq<string>, responses: seq<seq<Row>>, clock: seq<seq<DateTime>>) {
    && |responses| == |leagues| && |clock| == |leagues|
    && forall i | 0 <= i < |leagues| :: |clock[i]| == |responses[i]|
  }

  function LeagueCandidates(league: string, records: seq<Row>, readings: seq<DateTime>): (cs: seq<Candidate>)
    requires |readings| == |records|
    ensures |cs| == |records|
    ensures forall j | 0 <= j < |cs| :: cs[j] == CandidateOf(records[j], readings[j], league)
  {
    seq(|records|, j requires 0 <= j < |records| => CandidateOf(records[j], readings[j], league))
  }

  /** Every listed match, league by league, each league's matches in the provider's order. */
  function Candidates(leagues: seq<string>, responses: seq<seq<Row>>, clock: seq<seq<DateTime>>): (cs: seq<Candidate>)
    requires Shaped(leagues, responses, clock)
    ensures |cs| == TotalRows(responses)
  {
    if leagues == [] then []
    else
      LeagueCandidates(leagues[0], responses[0], clock[0])
        + Candidates(leagues[1..], responses[1..], clock[1..])
  }

  /** `datetime.strptime(value, ...)`: a str is parsed, anything else is a `TypeError`. */
  function Strptime(v: Value): (r: Result<DateTime>)
    ensures r.Ok? ==> v.Str? && Valid(r.value) && r.value.microsecond == 0
  {
    if !v.Str? then Err(DatetimeNotString)
    else
      var r := ParseDatetime(v.text);
      assert r.Ok? ==> Valid(r.value) && r.value.microsecond == 0 by {
        if r.Ok? { ParsedIsValid(v.text); }
      }
      r
  }

  /** `match['datetime']` read and parsed. */
  function KickOff(record: Row): Result<DateTime> {
    if "datetime" !in record then Err(KeyError("datetime")) else Strptime(record["datetime"])
  }

  /** The record can be read at all, and, if its match is over, it has an id. */
  predicate WellFormed(c: Candidate) {
    c.kickOff.Ok? && (Before(c.kickOff.value, c.today) ==> "id" in c.record)
  }

  /** The match kicked off before the clock reading. */
  predicate IsPast(c: Candidate) {
    c.kickOff.Ok? && Before(c.kickOff.value, c.today)
  }

  /** One pass of the inner loop body: the entries it appends (none or one), or the
      exception it raises. */
  function Classify(c: Candidate): (r: Result<seq<MatchEntry>>)
    ensures r.Ok? <==> WellFormed(c)
    ensures r.Ok? ==> r.value == if IsPast(c) then [MatchEntry(c.record["id"], c.league)] else []
  {
    match c.kickOff
    case Err(e) => Err(e)
    case Ok(date) =>
      if !Before(date, c.today) then Ok([])
      else if "id" !in c.record then Err(KeyError("id"))
      else Ok([MatchEntry(c.record["id"], c.league)])
  }

  /** The first exception wins; otherwise the entries are appended in order. */
  function Then(a: Result<seq<MatchEntry>>, b: Result<seq<MatchEntry>>): (r: Result<seq<MatchEntry>>)
    ensures r.Ok? <==> a.Ok? && b.Ok?
    ensures a.Err? ==> r == a
  {
    if a.Err? then a else if b.Err? then b else Ok(a.value + b.value)
  }

  function Collect(cs: seq<Candidate>): Result<seq<MatchEntry>> {
    if cs == [] then Ok([]) else Then(Classify(cs[0]), Collect(cs[1..]))
  }

  /** What `match_id_retrieval` returns, or the exception it raises. */
  function Retrieve(leagues: seq<string>, responses: seq<seq<Row>>, clock: seq<seq<DateTime>>): Result<seq<MatchEntry>>
    requires Shaped(leagues, responses, clock)
  {
    Collect(Candidates(leagues, responses, clock))
  }

  /** `match_id_retrieval(league_list, season)`, with the client's replies and the clock
      readings given. */
  method MatchIdRetrieval(leagues: seq<string>, responses: seq<seq<Row>>, clock: seq<seq<DateTime>>)
    returns (r: Result<seq<MatchEntry>>)
    requires Shaped(leagues, responses, clock)
    ensures r == Retrieve(leagues, responses, clock)
  {
    var matchIds: seq<MatchEntry> := [];
    ShapedFrom(leagues, responses, clock, 0);
    assert leagues[0..] == leagues && responses[0..] == responses && clock[0..] == clock;
    ThenOkEmpty(Retrieve(leagues, responses, clock));
    var i := 0;
    while i < |leagues|
      invariant 0 <= i <= |leagues|
      invariant Shaped(leagues[i..], responses[i..], clock[i..])
      invariant Retrieve(leagues, responses, clock)
        == Then(Ok(matchIds), Collect(Candidates(leagues[i..], responses[i..], clock[i..])))
    {
      var league := leagues[i];
      var leagueMatches := responses[i];
      var here := LeagueCandidates(league, leagueMatches, clock[i]);
      ShapedFrom(leagues, responses, clock, i + 1);
      var rest := Candidates(leagues[i + 1..], responses[i + 1..], clock[i + 1..]);
      CandidatesFrom(leagues, responses, clock, i);
      assert here[0..] == here;
      var j := 0;
      while j < |leagueMatches|
        invariant 0 <= j <= |leagueMatches|
        invariant Retrieve(leagues, responses, clock) == Then(Ok(matchIds), Collect(here[j..] + rest))
      {
        var record := leagueMatches[j];
        CollectStep(here, j, rest);
        assert here[j] == CandidateOf(record, clock[i][j], league);
        var step := VisitMatch(record, clock[i][j], league);
        if step.Err? {
          return Err(step.error);
        }
        ThenOkAppend(matchIds, step.value, Collect(here[j + 1..] + rest));
        matchIds := matchIds + step.value;
        j := j + 1;
      }
      assert here[j..] + rest == rest;
      i := i + 1;
    }
    assert matchIds + [] == matchIds;
    return Ok(matchIds);
  }

  /** The inner loop body for one listed match, with `today` the clock reading taken for
      it: the entries it appends (none or one), or the exception it raises. */
  method VisitMatch(record: Row, today: DateTime, league: string) returns (r: Result<seq<MatchEntry>>)
    ensures r == Classify(CandidateOf(record, today, league))
  {
    if "datetime" !in record {
      return Err(KeyError("datetime"));
    }
    var gameDate := Strptime(record["datetime"]);
    if gameDate.Err? {
      return Err(gameDate.error);
    }
    if Before(gameDate.value, today) {
      if "id" !in record {
        return Err(KeyError("id"));
      }
      return Ok([MatchEntry(record["id"], league)]);
    }
    return Ok([]);
  }

  lemma ThenOkEmpty(x: Result<seq<MatchEntry>>)
    ensures Then(Ok([]), x) == x
  {
    if x.Ok? { assert [] + x.value == x.value; }
  }

  lemma ThenOkAppend(acc: seq<MatchEntry>, e: seq<MatchEntry>, y: Result<seq<MatchEntry>>)
    ensures Then(Ok(acc), Then(Ok(e), y)) == Then(Ok(acc + e), y)
  {
    if y.Ok? { assert acc + (e + y.value) == (acc + e) + y.value; }
  }

  /** The inner loop's view of `Collect`: one candidate, then the rest. */
  lemma CollectStep(here: seq<Candidate>, j: nat, rest: seq<Candidate>)
    requires j < |here|
    ensures Collect(here[j..] + rest) == Then(Classify(here[j]), Collect(here[j + 1..] + rest))
  {
    assert (here[j..] + rest)[0] == here[j];
    assert (here[j..] + rest)[1..] == here[j + 1..] + rest;
  }

  lemma ShapedFrom(leagues: seq<string>, responses: seq<seq<Row>>, clock: seq<seq<DateTime>>, i: nat)
    requires Shaped(leagues, responses, clock) && i <= |leagues|
    ensures Shaped(leagues[i..], responses[i..], clock[i..])
  {
    assert forall k | 0 <= k < |leagues| - i :: clock[i..][k] == clock[i + k] && responses[i..][k] == responses[i + k];
  }

  /** The outer loop's view of `Candidates`: one league, then the rest. */
  lemma CandidatesFrom(leagues: seq<string>, responses: seq<seq<Row>>, clock: seq<seq<DateTime>>, i: nat)
    requires Shaped(leagues, responses, clock) && i < |leagues|
    ensures Shaped(leagues[i..], responses[i..], clock[i..])
    ensures Shaped(leagues[i + 1..], responses[i + 1..], clock[i + 1..])
    ensures Candidates(leagues[i..], responses[i..], clock[i..])
      == LeagueCandidates(leagues[i], responses[i], clock[i])
         + Candidates(leagues[i + 1..], responses[i + 1..], clock[i + 1..])
  {
    ShapedFrom(leagues, responses, clock, i);
    ShapedFrom(leagues, responses, clock, i + 1);
    assert leagues[i..][1..] == leagues[i + 1..];
    assert responses[i..][1..] == responses[i + 1..];
    assert clock[i..][1..] == clock[i + 1..];
  }

  // ---------------------------------------------------------------------------------
  // A reference definition: the past matches, without the error handling.

  function PastEntries(cs: seq<Candidate>): seq<MatchEntry>
    requires forall k | 0 <= k < |cs| :: WellFormed(cs[k])
  {
    if cs == [] then []
    else
      assert WellFormed(cs[0]);
      var here := if IsPast(cs[0]) then [MatchEntry(cs[0].record["id"], cs[0].league)] else [];
      here + PastEntries(cs[1..])
  }

  /** The call succeeds exactly when every listed match can be read, and then returns
      precisely the past matches, in order. */
  lemma {:induction false} CollectIsFilter(cs: seq<Candidate>)
    ensures Collect(cs).Ok? <==> forall k | 0 <= k < |cs| :: WellFormed(cs[k])
    ensures Collect(cs).Ok? ==> Collect(cs).value == PastEntries(cs)
  {
    if cs != [] {
      CollectIsFilter(cs[1..]);
      assert forall k | 1 <= k < |cs| :: cs[1..][k - 1] == cs[k];
      assert (forall k | 0 <= k < |cs| :: WellFormed(cs[k]))
        <==> WellFormed(cs[0]) && forall k | 0 <= k < |cs[1..]| :: WellFormed(cs[1..][k]);
    }
  }

  /** The exception raised is the first listed match's that cannot be read. */
  lemma {:induction false} CollectFirstError(cs: seq<Candidate>)
    requires Collect(cs).Err?
    ensures exists k | 0 <= k < |cs| ::
      Classify(cs[k]) == Collect(cs) && forall k' | 0 <= k' < k :: WellFormed(cs[k'])
  {
    if Classify(cs[0]).Err? {
      assert Classify(cs[0]) == Collect(cs);
    } else {
      CollectFirstError(cs[1..]);
      var k :| 0 <= k < |cs[1..]| && Classify(cs[1..][k]) == Collect(cs[1..])
        && forall k' | 0 <= k' < k :: WellFormed(cs[1..][k']);
      assert Classify(cs[k + 1]) == Collect(cs);
      assert forall k' | 0 <= k' < k + 1 :: WellFormed(cs[k']) by {
        forall k' | 0 <= k' < k + 1 ensures WellFormed(cs[k']) {
          if k' > 0 { assert cs[k'] == cs[1..][k' - 1]; }
        }
      }
    }
  }

  /** An entry is listed exactly when some listed match is over and carries that id and
      league. */
  lemma {:induction false} PastEntriesMember(cs: seq<Candidate>, e: MatchEntry)
    requires forall k | 0 <= k < |cs| :: WellFormed(cs[k])
    ensures e in PastEntries(cs) <==>
      exists k | 0 <= k < |cs| :: IsPast(cs[k]) && e == MatchEntry(cs[k].record["id"], cs[k].league)
  {
    if cs != [] {
      PastEntriesMember(cs[1..], e);
      if e in PastEntries(cs[1..]) {
        var k :| 0 <= k < |cs[1..]| && IsPast(cs[1..][k])
          && e == MatchEntry(cs[1..][k].record["id"], cs[1..][k].league);
        assert cs[k + 1] == cs[1..][k];
      }
      if exists k | 0 <= k < |cs| :: IsPast(cs[k]) && e == MatchEntry(cs[k].record["id"], cs[k].league) {
        var k :| 0 <= k < |cs| && IsPast(cs[k]) && e == MatchEntry(cs[k].record["id"], cs[k].league);
        if k > 0 { assert cs[1..][k - 1] == cs[k]; }
      }
    }
  }

  /** At most one entry per listed match. */
  lemma {:induction false} PastEntriesLength(cs: seq<Candidate>)
    requires forall k | 0 <= k < |cs| :: WellFormed(cs[k])
    ensures |PastEntries(cs)| <= |cs|
    ensures (forall k | 0 <= k < |cs| :: !IsPast(cs[k])) ==> PastEntries(cs) == []
  {
    if cs != [] {
      PastEntriesLength(cs[1..]);
    }
  }

  /** The candidates are exactly the listed matches, each with its own clock reading and
      the league it was listed under. */
  lemma {:induction false} CandidatesMember(leagues: seq<string>, responses: seq<seq<Row>>,
                                            clock: seq<seq<DateTime>>, c: Candidate)
    requires Shaped(leagues, responses, clock)
    ensures c in Candidates(leagues, responses, clock) <==>
      exists i, j | 0 <= i < |leagues| && 0 <= j < |responses[i]| ::
        c == CandidateOf(responses[i][j], clock[i][j], leagues[i])
  {
    if leagues != [] {
      var here := LeagueCandidates(leagues[0], responses[0], clock[0]);
      CandidatesMember(leagues[1..], responses[1..], clock[1..], c);
      if c in Candidates(leagues, responses, clock) {
        if c in here {
          var j :| 0 <= j < |here| && here[j] == c;
          assert c == CandidateOf(responses[0][j], clock[0][j], leagues[0]);
        } else {
          var i, j :| 0 <= i < |leagues[1..]| && 0 <= j < |responses[1..][i]|
            && c == CandidateOf(responses[1..][i][j], clock[1..][i][j], leagues[1..][i]);
          assert c == CandidateOf(responses[i + 1][j], clock[i + 1][j], leagues[i + 1]);
        }
      }
      if exists i, j | 0 <= i < |leagues| && 0 <= j < |responses[i]| ::
        c == CandidateOf(responses[i][j], clock[i][j], leagues[i])
      {
        var i, j :| 0 <= i < |leagues| && 0 <= j < |responses[i]|
          && c == CandidateOf(responses[i][j], clock[i][j], leagues[i]);
        if i == 0 {
          assert here[j] == c;
        } else {
          assert c == CandidateOf(responses[1..][i - 1][j], clock[1..][i - 1][j], leagues[1..][i - 1]);
        }
      }
    }
  }

  /** `match_id_retrieval` returns normally exactly when every listed match can be read:
      its `datetime` is a str in the format, and a match that is over has an id. */
  lemma RetrieveOkIff(leagues: seq<string>, responses: seq<seq<Row>>, clock: seq<seq<DateTime>>)
    requires Shaped(leagues, responses, clock)
    ensures Retrieve(leagues, responses, clock).Ok?
      <==> forall c | c in Candidates(leagues, responses, clock) :: WellFormed(c)
  {
    var cs := Candidates(leagues, responses, clock);
    CollectIsFilter(cs);
    assert (forall k | 0 <= k < |cs| :: WellFormed(cs[k])) <==> (forall c | c in cs :: WellFormed(c));
  }

  /** When it returns, the list is precisely the past matches in the order the loops meet
      them, at most one entry per listed match, and empty when no league is given or no
      match is over. */
  lemma RetrieveIsFilter(leagues: seq<string>, responses: seq<seq<Row>>, clock: seq<seq<DateTime>>)
    requires Shaped(leagues, responses, clock)
    requires Retrieve(leagues, responses, clock).Ok?
    ensures var cs := Candidates(leagues, responses, clock);
      && (forall k | 0 <= k < |cs| :: WellFormed(cs[k]))
      && Retrieve(leagues, responses, clock).value == PastEntries(cs)
      && |Retrieve(leagues, responses, clock).value| <= TotalRows(responses)
      && ((forall k | 0 <= k < |cs| :: !IsPast(cs[k])) ==> Retrieve(leagues, responses, clock).value == [])
    ensures leagues == [] ==> Retrieve(leagues, responses, clock).value == []
  {
    var cs := Candidates(leagues, responses, clock);
    assert Retrieve(leagues, responses, clock) == Collect(cs);
    CollectIsFilter(cs);
    PastEntriesLength(cs);
  }
}
