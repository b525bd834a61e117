/**
  * `generateReport`: annotate every ticket of the loaded sheet, count the
  * tickets within and beyond their SLA overall and per ticket type, and
  * compute the overall compliance percentage.
  */
module Report {
  import opened Wrappers
  import opened InsertionOrder
  import opened Sla
  import opened Filters

  /** The two outcomes the report counts; every other outcome is left out of both counters. */
  predicate Counted(s: Status) {
    s == WithinSla || s == ExceedsSla
  }

  /** A row of the by-type table: `{ within, exceeded }`. */
  datatype Counts = Counts(within: nat, exceeded: nat) {

    /** The counter of a counted outcome; 0 for the others. */
    function Of(s: Status): (n: nat)
      ensures s == WithinSla ==> n == within
      ensures s == ExceedsSla ==> n == exceeded
      ensures !Counted(s) ==> n == 0
    {
      match s
      case WithinSla => within
      case ExceedsSla => exceeded
      case _ => 0
    }

    /** One more ticket with outcome `s`: its counter goes up by one, the other stays. */
    function Bump(s: Status): (c: Counts)
      ensures forall o :: Counted(o) ==> c.Of(o) == Of(o) + (if o == s then 1 else 0)
    {
      match s
      case WithinSla => this.(within := within + 1)
      case ExceedsSla => this.(exceeded := exceeded + 1)
      case _ => this
    }
  }

  /** The verdict each ticket should carry at time `now`, in sheet order. */
  function Verdicts(ts: seq<Ticket>, now: int): (vs: seq<Verdict>)
    ensures |vs| == |ts|
  {
    if |ts| == 0 then [] else Verdicts(ts[..|ts| - 1], now) + [ts[|ts| - 1].Expected(now)]
  }

  /** The `j`-th verdict is the one the `j`-th ticket should carry. */
  lemma {:induction false} VerdictAt(ts: seq<Ticket>, j: nat, now: int)
    requires j < |ts|
    ensures Verdicts(ts, now)[j] == ts[j].Expected(now)
  {
    if j < |ts| - 1 {
      VerdictAt(ts[..|ts| - 1], j, now);
    }
  }

  /** The outcome each ticket should carry at time `now`, in sheet order. */
  function Outcomes(ts: seq<Ticket>, now: int): (outs: seq<Status>)
    ensures |outs| == |ts|
  {
    if |ts| == 0 then [] else Outcomes(ts[..|ts| - 1], now) + [ts[|ts| - 1].Expected(now).compliance]
  }

  /** The property name each ticket is tallied under, in sheet order. */
  function TypeKeys(ts: seq<Ticket>): (keys: seq<string>)
    ensures |keys| == |ts|
  {
    if |ts| == 0 then [] else TypeKeys(ts[..|ts| - 1]) + [TypeKey(ts[|ts| - 1].ticketType)]
  }

  /** How many times `s` occurs in `outs`. */
  function Count(outs: seq<Status>, s: Status): (n: nat)
    ensures n <= |outs|
  {
    if |outs| == 0 then 0 else Count(outs[..|outs| - 1], s) + (if outs[|outs| - 1] == s then 1 else 0)
  }

  /**
    * `ticketTypeSLA` for tickets with type keys `keys` and outcomes `outs`:
    * every key gets a row, created at zero the first time the key is met,
    * and its counter for the ticket's outcome goes up by one.
    */
  function Tally(keys: seq<string>, outs: seq<Status>): (t: map<string, Counts>)
    requires |keys| == |outs|
    ensures |keys| == 0 ==> t == map[]
    ensures |keys| > 0 ==> keys[|keys| - 1] in t
  {
    if |keys| == 0 then map[]
    else
      var n := |keys| - 1;
      var tally := Tally(keys[..n], outs[..n]);
      var row := if keys[n] in tally then tally[keys[n]] else Counts(0, 0);
      tally[keys[n] := row.Bump(outs[n])]
  }

  /**
    * What the report shows: the overall counters, the number of tickets,
    * and the by-type table with its rows in the order the types were first
    * met.
    */
  datatype Summary = Summary(withinSla: nat, exceededSla: nat, totalTickets: nat,
                             byType: map<string, Counts>, typeOrder: seq<string>) {

    /** `(withinSLA / totalTickets) * 100`, as an exact ratio. */
    function Percentage(): (p: real)
      requires totalTickets > 0
      ensures p * (totalTickets as real) == (withinSla as real) * 100.0
    {
      (withinSla as real) / (totalTickets as real) * 100.0
    }
  }

  /** The summary of tickets with type keys `keys` and outcomes `outs`. */
  function SummaryOf(keys: seq<string>, outs: seq<Status>): Summary
    requires |keys| == |outs|
  {
    Summary(Count(outs, WithinSla), Count(outs, ExceedsSla), |outs|, Tally(keys, outs), Distinct(keys))
  }

  /** The summary the report computes for the tickets `ts` at time `now`. */
  function Summarize(ts: seq<Ticket>, now: int): Summary {
    SummaryOf(TypeKeys(ts), Outcomes(ts, now))
  }

  /**
    * The per-ticket loop of `generateReport`. An empty sheet stops the
    * report before anything is written. Otherwise every ticket is
    * annotated and counted by the text just written into its "SLA
    * Compliance" property, and its type gets a row in the by-type table.
    */
  method GenerateReport(tickets: seq<Ticket>, now: int) returns (r: Option<Summary>)
    modifies set t | t in tickets
    ensures |tickets| == 0 <==> r.None?
    ensures r.Some? ==> r.value == Summarize(tickets, now)
    ensures r.Some? ==> forall t :: t in tickets ==> t.Annotated(now)
  {
    if |tickets| == 0 {
      return None;
    }
    var withinSla, exceededSla := 0, 0;
    var totalTickets := |tickets|;
    var byType: map<string, Counts> := map[];
    var typeOrder: seq<string> := [];
    ghost var verdicts: seq<Verdict> := [];
    ghost var keys: seq<string> := [];
    ghost var outs: seq<Status> := [];
    var i := 0;
    while i < |tickets|
      invariant 0 <= i <= |tickets| && |verdicts| == i
      invariant Seen(tickets, i, now, verdicts, keys, outs)
      invariant CarriesUpTo(tickets, i, verdicts)
      invariant Tallied(keys, outs, withinSla, exceededSla, byType, typeOrder)
    {
      withinSla, exceededSla, byType, typeOrder, verdicts, keys, outs :=
        Visit(tickets, i, now, withinSla, exceededSla, byType, typeOrder, verdicts, keys, outs);
      i := i + 1;
    }
    SeenAll(tickets, now, verdicts, keys, outs);
    AllAnnotated(tickets, now, verdicts);
    return Some(Summary(withinSla, exceededSla, totalTickets, byType, typeOrder));
  }

  /** Once every ticket carries its own verdict, every ticket is annotated. */
  lemma AllAnnotated(tickets: seq<Ticket>, now: int, verdicts: seq<Verdict>)
    requires CarriesUpTo(tickets, |tickets|, verdicts) && verdicts == Verdicts(tickets, now)
    ensures forall t :: t in tickets ==> t.Annotated(now)
  {
    forall t | t in tickets
      ensures t.Annotated(now)
    {
      var j :| 0 <= j < |tickets| && tickets[j] == t;
      VerdictAt(tickets, j, now);
    }
  }

  /** The first `n` tickets carry the verdicts `verdicts` in their annotation properties. */
  ghost predicate CarriesUpTo(tickets: seq<Ticket>, n: int, verdicts: seq<Verdict>)
    reads tickets
  {
    forall j :: 0 <= j < n && j < |tickets| && j < |verdicts| ==> tickets[j].Carries(verdicts[j])
  }

  /** `verdicts`, `keys` and `outs` are the verdicts, type keys and outcomes of the first `n` tickets. */
  ghost predicate Seen(tickets: seq<Ticket>, n: int, now: int, verdicts: seq<Verdict>, keys: seq<string>, outs: seq<Status>) {
    && 0 <= n <= |tickets|
    && verdicts == Verdicts(tickets[..n], now)
    && keys == TypeKeys(tickets[..n])
    && outs == Outcomes(tickets[..n], now)
  }

  /** The counters and the by-type table are those of the type keys `keys` and outcomes `outs`. */
  ghost predicate Tallied(keys: seq<string>, outs: seq<Status>, withinSla: nat, exceededSla: nat,
                          byType: map<string, Counts>, typeOrder: seq<string>) {
    && |keys| == |outs|
    && withinSla == Count(outs, WithinSla) && exceededSla == Count(outs, ExceedsSla)
    && byType == Tally(keys, outs) && typeOrder == Distinct(keys)
  }

  /** A ticket met again, the same object later in the sheet, gets the verdict it got before. */
  lemma SameTicketSameVerdict(tickets: seq<Ticket>, n: int, now: int, verdicts: seq<Verdict>, keys: seq<string>, outs: seq<Status>)
    requires Seen(tickets, n, now, verdicts, keys, outs) && n < |tickets|
    ensures forall j :: 0 <= j < n && tickets[j] == tickets[n] ==> verdicts[j] == tickets[n].Expected(now)
  {
    forall j | 0 <= j < n && tickets[j] == tickets[n]
      ensures verdicts[j] == tickets[n].Expected(now)
    {
      VerdictAt(tickets[..n], j, now);
    }
  }

  /** Seeing one more ticket adds its verdict, type key and outcome. */
  lemma SeenStep(tickets: seq<Ticket>, n: int, now: int, verdicts: seq<Verdict>, keys: seq<string>, outs: seq<Status>)
    requires Seen(tickets, n, now, verdicts, keys, outs) && n < |tickets|
    ensures var t := tickets[n];
      Seen(tickets, n + 1, now, verdicts + [t.Expected(now)], keys + [TypeKey(t.ticketType)], outs + [t.Expected(now).compliance])
  {
    PrefixSnoc(tickets, n);
    TicketStep(tickets[..n], tickets[n], now);
  }

  /** A prefix one longer is the prefix with the next element appended. */
  lemma PrefixSnoc<T>(s: seq<T>, n: int)
    requires 0 <= n < |s|
    ensures s[..n + 1] == s[..n] + [s[n]]
  {
  }

  /** Having seen every ticket, the verdicts, keys and outcomes are those of the whole sheet. */
  lemma SeenAll(tickets: seq<Ticket>, now: int, verdicts: seq<Verdict>, keys: seq<string>, outs: seq<Status>)
    requires Seen(tickets, |tickets|, now, verdicts, keys, outs)
    ensures verdicts == Verdicts(tickets, now) && keys == TypeKeys(tickets) && outs == Outcomes(tickets, now)
  {
    assert tickets[..|tickets|] == tickets;
  }

  /**
    * The body of the per-ticket loop for the ticket at index `n`: annotate
    * it, then count it by the compliance text just written. The annotated
    * prefix, the outcomes seen and the tallies all grow by this ticket.
    */
  method Visit(tickets: seq<Ticket>, n: int, now: int, withinSla: nat, exceededSla: nat,
               byType: map<string, Counts>, typeOrder: seq<string>,
               ghost verdicts: seq<Verdict>, ghost keys: seq<string>, ghost outs: seq<Status>)
    returns (within: nat, exceeded: nat, table: map<string, Counts>, order: seq<string>,
             ghost verdicts': seq<Verdict>, ghost keys': seq<string>, ghost outs': seq<Status>)
    requires 0 <= n < |tickets| && |verdicts| == n
    requires Seen(tickets, n, now, verdicts, keys, outs)
    requires CarriesUpTo(tickets, n, verdicts)
    requires Tallied(keys, outs, withinSla, exceededSla, byType, typeOrder)
    modifies tickets[n]
    ensures |verdicts'| == n + 1
    ensures Seen(tickets, n + 1, now, verdicts', keys', outs')
    ensures CarriesUpTo(tickets, n + 1, verdicts')
    ensures Tallied(keys', outs', within, exceeded, table, order)
  {
    var ticket := tickets[n];
    ghost var verdict := ticket.Expected(now);
    SameTicketSameVerdict(tickets, n, now, verdicts, keys, outs);
    SeenStep(tickets, n, now, verdicts, keys, outs);
    label before:
    ticket.Annotate(now);
    forall j | 0 <= j < n
      ensures tickets[j].Carries(verdicts[j])
    {
      if tickets[j] != ticket {
        assert old@before(tickets[j].Carries(verdicts[j]));
      }
    }
    assert ticket.Carries(verdict);
    var key := TypeKey(ticket.ticketType);
    within, exceeded, table, order :=
      CountTicket(ticket.slaCompliance, key, withinSla, exceededSla, byType, typeOrder, keys, outs, verdict.compliance);
    verdicts', keys', outs' := verdicts + [verdict], keys + [key], outs + [verdict.compliance];
  }

  /**
    * The counting part of the loop body: the ticket's compliance text
    * decides which global counter goes up, its type gets a zeroed row the
    * first time it is met, and the matching counter of that row goes up.
    * Counted this way the counters and rows stay those of the outcomes
    * seen so far, one more outcome included.
    */
  method CountTicket(compliance: Option<string>, key: string, withinSla: nat, exceededSla: nat,
                     byType: map<string, Counts>, typeOrder: seq<string>,
                     ghost keys: seq<string>, ghost outs: seq<Status>, ghost outcome: Status)
    returns (within: nat, exceeded: nat, table: map<string, Counts>, order: seq<string>)
    requires compliance == Some(outcome.Label())
    requires Tallied(keys, outs, withinSla, exceededSla, byType, typeOrder)
    ensures Tallied(keys + [key], outs + [outcome], within, exceeded, table, order)
  {
    SummaryStep(keys, outs, key, outcome);
    within, exceeded := CountOverall(compliance, withinSla, exceededSla, outcome);
    table, order := CountByType(compliance, key, byType, typeOrder, outcome);
  }

  /** The global counters: the ticket's compliance text raises the one of its outcome, if counted. */
  method CountOverall(compliance: Option<string>, withinSla: nat, exceededSla: nat, ghost outcome: Status)
    returns (within: nat, exceeded: nat)
    requires compliance == Some(outcome.Label())
    ensures within == withinSla + (if outcome == WithinSla then 1 else 0)
    ensures exceeded == exceededSla + (if outcome == ExceedsSla then 1 else 0)
  {
    LabelsDistinct(outcome, WithinSla);
    LabelsDistinct(outcome, ExceedsSla);
    within, exceeded := withinSla, exceededSla;
    if compliance == Some("Within SLA") {
      within := within + 1;
    } else if compliance == Some("Exceeds SLA") {
      exceeded := exceeded + 1;
    }
  }

  /**
    * The by-type table: a type met for the first time gets a zeroed row,
    * listed last; then the row's counter for the ticket's outcome goes up.
    */
  method CountByType(compliance: Option<string>, key: string, byType: map<string, Counts>, typeOrder: seq<string>,
                     ghost outcome: Status)
    returns (table: map<string, Counts>, order: seq<string>)
    requires compliance == Some(outcome.Label())
    ensures var row := if key in byType then byType[key] else Counts(0, 0);
      table == byType[key := row.Bump(outcome)]
    ensures order == if key in byType then typeOrder else typeOrder + [key]
  {
    LabelsDistinct(outcome, WithinSla);
    LabelsDistinct(outcome, ExceedsSla);
    table, order := byType, typeOrder;
    if key !in table {
      table := table[key := Counts(0, 0)];
      order := order + [key];
    }
    if compliance == Some("Within SLA") {
      table := table[key := table[key].(within := table[key].within + 1)];
    } else if compliance == Some("Exceeds SLA") {
      table := table[key := table[key].(exceeded := table[key].exceeded + 1)];
    }
  }

  /** An annotated ticket's compliance text names its outcome: comparing the text compares the outcome. */
  lemma ReadOutcome(t: Ticket, now: int)
    requires t.Annotated(now)
    ensures t.slaCompliance == Some("Within SLA") <==> t.Expected(now).compliance == WithinSla
    ensures t.slaCompliance == Some("Exceeds SLA") <==> t.Expected(now).compliance == ExceedsSla
  {
    LabelsDistinct(t.Expected(now).compliance, WithinSla);
    LabelsDistinct(t.Expected(now).compliance, ExceedsSla);
  }

  /** One more ticket adds its verdict, its type key and its outcome at the end. */
  lemma TicketStep(ts: seq<Ticket>, t: Ticket, now: int)
    ensures Verdicts(ts + [t], now) == Verdicts(ts, now) + [t.Expected(now)]
    ensures TypeKeys(ts + [t]) == TypeKeys(ts) + [TypeKey(t.ticketType)]
    ensures Outcomes(ts + [t], now) == Outcomes(ts, now) + [t.Expected(now).compliance]
  {
    assert (ts + [t])[..|ts|] == ts;
  }

  /** One more ticket: its outcome is counted, and its key's row is created if new and then bumped. */
  lemma SummaryStep(keys: seq<string>, outs: seq<Status>, key: string, outcome: Status)
    requires |keys| == |outs|
    ensures forall s :: Count(outs + [outcome], s) == Count(outs, s) + (if outcome == s then 1 else 0)
    ensures var before := Tally(keys, outs);
      var row := if key in before then before[key] else Counts(0, 0);
      Tally(keys + [key], outs + [outcome]) == before[key := row.Bump(outcome)]
    ensures Distinct(keys + [key]) == if key in Tally(keys, outs) then Distinct(keys) else Distinct(keys) + [key]
  {
    assert (outs + [outcome])[..|outs|] == outs;
    assert (keys + [key])[..|keys|] == keys;
    DistinctSnoc(keys, key);
    DistinctSameElements(keys);
    TallyKeys(keys, outs);
  }

  // ----- What the counters mean -----

  /** The table has a row for exactly the keys met, tickets without a type under "undefined". */
  lemma {:induction false} TallyKeys(keys: seq<string>, outs: seq<Status>)
    requires |keys| == |outs|
    ensures forall key :: key in Tally(keys, outs) <==> key in keys
  {
    if |keys| > 0 {
      var n := |keys| - 1;
      TallyKeys(keys[..n], outs[..n]);
      assert keys == keys[..n] + [keys[n]];
    }
  }

  /** The rows are listed once each, in the order their types were first met, and they are the table's rows. */
  lemma RowsListed(keys: seq<string>, outs: seq<Status>)
    requires |keys| == |outs|
    ensures var s := SummaryOf(keys, outs);
      && NoDuplicates(s.typeOrder)
      && forall key :: key in s.typeOrder <==> key in s.byType
  {
    DistinctNoDuplicates(keys);
    DistinctSameElements(keys);
    TallyKeys(keys, outs);
  }

  /** The two counted outcomes occur no more often than all the tickets together. */
  lemma {:induction false} CountsWithinTotal(outs: seq<Status>)
    ensures Count(outs, WithinSla) + Count(outs, ExceedsSla) <= |outs|
  {
    if |outs| > 0 {
      CountsWithinTotal(outs[..|outs| - 1]);
    }
  }

  /** The two counted outcomes make up all the tickets exactly when every outcome is counted. */
  lemma {:induction false} AllCounted(outs: seq<Status>)
    ensures (Count(outs, WithinSla) + Count(outs, ExceedsSla) == |outs|) <==> forall j :: 0 <= j < |outs| ==> Counted(outs[j])
  {
    if |outs| > 0 {
      var n := |outs| - 1;
      var init := outs[..n];
      AllCounted(init);
      CountsWithinTotal(init);
      assert forall j :: 0 <= j < n ==> init[j] == outs[j];
    }
  }

  /**
    * Within and exceeded add up to the number of tickets exactly when every
    * ticket's type has a budget and its created time parses.
    */
  lemma EveryTicketCounted(ts: seq<Ticket>, now: int)
    ensures var outs := Outcomes(ts, now);
      (Count(outs, WithinSla) + Count(outs, ExceedsSla) == |ts|)
        <==> forall j :: 0 <= j < |ts| ==> SlaDays(ts[j].ticketType).Some? && ParseCell(ts[j].createdCell).Some?
  {
    var outs := Outcomes(ts, now);
    AllCounted(outs);
    if Count(outs, WithinSla) + Count(outs, ExceedsSla) == |ts| {
      forall j | 0 <= j < |ts|
        ensures SlaDays(ts[j].ticketType).Some? && ParseCell(ts[j].createdCell).Some?
      {
        OutcomeCounted(ts, j, now);
      }
    } else {
      var j :| 0 <= j < |outs| && !Counted(outs[j]);
      OutcomeCounted(ts, j, now);
    }
  }

  /** The `j`-th outcome is counted exactly when the `j`-th ticket's type has a budget and its created time parses. */
  lemma OutcomeCounted(ts: seq<Ticket>, j: nat, now: int)
    requires j < |ts|
    ensures Counted(Outcomes(ts, now)[j]) <==> SlaDays(ts[j].ticketType).Some? && ParseCell(ts[j].createdCell).Some?
  {
    OutcomeAt(ts, j, now);
  }

  /** The overall counters never add up to more than the number of tickets, and the percentage lies between 0 and 100. */
  lemma PercentageBounds(keys: seq<string>, outs: seq<Status>)
    requires |keys| == |outs| > 0
    ensures var s := SummaryOf(keys, outs);
      && s.withinSla + s.exceededSla <= s.totalTickets
      && 0.0 <= s.Percentage() <= 100.0
  {
    CountsWithinTotal(outs);
    RatioBounds(Count(outs, WithinSla), |outs|);
  }

  /** A part of a positive whole is between 0 and 100 percent of it. */
  lemma RatioBounds(part: nat, whole: nat)
    requires part <= whole && whole > 0
    ensures 0.0 <= (part as real) / (whole as real) * 100.0 <= 100.0
  {
    var q := (part as real) / (whole as real);
    assert q * (whole as real) == part as real;
    assert q <= 1.0 by {
      if q > 1.0 {
        assert q * (whole as real) > whole as real;
      }
    }
  }

  /** The outcomes of the tickets with key `key`, in sheet order. */
  function OutcomesOf(keys: seq<string>, outs: seq<Status>, key: string): (r: seq<Status>)
    requires |keys| == |outs|
    ensures |r| <= |outs|
  {
    if |keys| == 0 then []
    else
      var n := |keys| - 1;
      OutcomesOf(keys[..n], outs[..n], key) + (if keys[n] == key then [outs[n]] else [])
  }

  /** Each row counts exactly the tickets of its type with the counted outcome. */
  lemma {:induction false} RowCountsItsType(keys: seq<string>, outs: seq<Status>, key: string, s: Status)
    requires |keys| == |outs|
    requires Counted(s)
    ensures key in Tally(keys, outs) ==> Tally(keys, outs)[key].Of(s) == Count(OutcomesOf(keys, outs, key), s)
    ensures key !in Tally(keys, outs) ==> Count(OutcomesOf(keys, outs, key), s) == 0
  {
    if |keys| > 0 {
      var n := |keys| - 1;
      RowCountsItsType(keys[..n], outs[..n], key, s);
      var before := Tally(keys[..n], outs[..n]);
      var mine := OutcomesOf(keys[..n], outs[..n], key);
      if keys[n] == key {
        var row := if key in before then before[key] else Counts(0, 0);
        assert Tally(keys, outs)[key] == row.Bump(outs[n]);
        assert OutcomesOf(keys, outs, key) == mine + [outs[n]];
        assert (mine + [outs[n]])[..|mine|] == mine;
        assert Count(mine + [outs[n]], s) == Count(mine, s) + (if outs[n] == s then 1 else 0);
      } else {
        assert OutcomesOf(keys, outs, key) == mine;
      }
    }
  }

  /** The counter `s` of the rows listed in `order`, added up. */
  function RowSum(tally: map<string, Counts>, order: seq<string>, s: Status): nat {
    if |order| == 0 then 0
    else
      var key := order[|order| - 1];
      RowSum(tally, order[..|order| - 1], s) + (if key in tally then tally[key].Of(s) else 0)
  }

  /** The by-type table adds up to the overall counters: no ticket is counted twice or lost. */
  lemma {:induction false} RowsAddUp(keys: seq<string>, outs: seq<Status>, s: Status)
    requires |keys| == |outs|
    requires Counted(s)
    ensures RowSum(Tally(keys, outs), Distinct(keys), s) == Count(outs, s)
  {
    if |keys| > 0 {
      var n := |keys| - 1;
      var init, inits := keys[..n], outs[..n];
      assert keys == init + [keys[n]] && outs == inits + [outs[n]];
      RowsAddUp(init, inits, s);
      SummaryStep(init, inits, keys[n], outs[n]);
      DistinctNoDuplicates(init);
      DistinctSameElements(init);
      TallyKeys(init, inits);
      RowSumStep(Tally(init, inits), Distinct(init), keys[n], outs[n], s);
    }
  }

  /**
    * One more ticket of type `key` with outcome `outcome`: its row, created
    * at zero if new and listed last, is bumped, and the sum of counter `s`
    * over the listed rows goes up exactly when the outcome is `s`.
    */
  lemma RowSumStep(tally: map<string, Counts>, order: seq<string>, key: string, outcome: Status, s: Status)
    requires Counted(s)
    requires NoDuplicates(order) && forall k :: k in order <==> k in tally
    ensures var row := if key in tally then tally[key] else Counts(0, 0);
      RowSum(tally[key := row.Bump(outcome)], if key in tally then order else order + [key], s)
        == RowSum(tally, order, s) + (if outcome == s then 1 else 0)
  {
    var row := if key in tally then tally[key] else Counts(0, 0);
    var bumped := row.Bump(outcome);
    if key in tally {
      RowSumUpdate(tally, order, key, bumped, s);
    } else {
      RowSumOther(tally, order, key, bumped, s);
      assert (order + [key])[..|order|] == order;
    }
  }

  /** Changing a row listed once changes the sum by the change in that row. */
  lemma {:induction false} RowSumUpdate(tally: map<string, Counts>, order: seq<string>, key: string, row: Counts, s: Status)
    requires key in tally
    requires NoDuplicates(order) && key in order
    ensures RowSum(tally[key := row], order, s) == RowSum(tally, order, s) - tally[key].Of(s) + row.Of(s)
  {
    var init := order[..|order| - 1];
    if order[|order| - 1] == key {
      ListedOnce(order);
      RowSumOther(tally, init, key, row, s);
    } else {
      assert key in init by {
        var j :| 0 <= j < |order| && order[j] == key;
        assert init[j] == key;
      }
      RowSumUpdate(tally, init, key, row, s);
    }
  }

  /** In a list without duplicates the last entry does not occur before it. */
  lemma ListedOnce(order: seq<string>)
    requires NoDuplicates(order) && |order| > 0
    ensures order[|order| - 1] !in order[..|order| - 1]
  {
    forall j | 0 <= j < |order| - 1
      ensures order[j] != order[|order| - 1]
    {
    }
  }

  /** Changing a row not listed leaves the sum as it is. */
  lemma {:induction false} RowSumOther(tally: map<string, Counts>, order: seq<string>, key: string, row: Counts, s: Status)
    requires key !in order
    ensures RowSum(tally[key := row], order, s) == RowSum(tally, order, s)
  {
    if |order| > 0 {
      RowSumOther(tally, order[..|order| - 1], key, row, s);
    }
  }

  /**
    * After the report, filtering the table by a compliance text shows as
    * many tickets as the matching counter: the counters and the filter
    * read the same annotation.
    */
  lemma ComplianceFilterAgrees(ts: seq<Ticket>, now: int, s: Status)
    requires forall t :: t in ts ==> t.Annotated(now)
    ensures |FilterTickets(ts, "", s.Label())| == Count(Outcomes(ts, now), s)
  {
    var outs := Outcomes(ts, now);
    forall j | 0 <= j < |ts|
      ensures ts[j].slaCompliance == Some(outs[j].Label())
    {
      assert ts[j] in ts;
      OutcomeAt(ts, j, now);
    }
    FilterCountsLabels(ts, outs, s);
  }

  /** The `j`-th outcome is the one the `j`-th ticket should carry. */
  lemma {:induction false} OutcomeAt(ts: seq<Ticket>, j: nat, now: int)
    requires j < |ts|
    ensures Outcomes(ts, now)[j] == ts[j].Expected(now).compliance
  {
    if j < |ts| - 1 {
      OutcomeAt(ts[..|ts| - 1], j, now);
    }
  }

  /** Tickets whose compliance texts are the labels of `outs`: filtering by a label counts that outcome. */
  lemma {:induction false} FilterCountsLabels(ts: seq<Ticket>, outs: seq<Status>, s: Status)
    requires |outs| == |ts|
    requires forall j :: 0 <= j < |ts| ==> ts[j].slaCompliance == Some(outs[j].Label())
    ensures |FilterTickets(ts, "", s.Label())| == Count(outs, s)
  {
    if |ts| > 0 {
      var i := |ts| - 1;
      FilterCountsLabels(ts[..i], outs[..i], s);
      LabelsDistinct(outs[i], s);
    }
  }
}
