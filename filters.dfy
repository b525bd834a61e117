/**
  * The two report filters: the choices offered in the "Type" and "SLA
  * Compliance" drop-downs when a sheet is loaded, and the test a ticket
  * must pass to appear in the report's table.
  */
module Filters {
  import opened Wrappers
  import opened InsertionOrder
  import opened Sla

  /** The "Type" cell of each ticket, in sheet order. */
  function TypeCells(ts: seq<Ticket>): (cells: seq<Option<string>>)
    ensures |cells| == |ts|
    ensures forall i :: 0 <= i < |ts| ==> cells[i] == ts[i].ticketType
  {
    if |ts| == 0 then [] else TypeCells(ts[..|ts| - 1]) + [ts[|ts| - 1].ticketType]
  }

  /** The "SLA Compliance" cell of each ticket, in sheet order. */
  function ComplianceCells(ts: seq<Ticket>): (cells: seq<Option<string>>)
    reads set t | t in ts
    ensures |cells| == |ts|
    ensures forall i :: 0 <= i < |ts| ==> cells[i] == ts[i].slaCompliance
  {
    if |ts| == 0 then [] else ComplianceCells(ts[..|ts| - 1]) + [ts[|ts| - 1].slaCompliance]
  }

  /** A cell JavaScript treats as true: present and not the empty text. */
  predicate IsTruthy(cell: Option<string>) {
    cell.Some? && cell.value != ""
  }

  /** The texts of the truthy cells, in order. */
  function Truthy(cells: seq<Option<string>>): (texts: seq<string>)
    ensures |texts| <= |cells|
  {
    if |cells| == 0 then []
    else
      var last := cells[|cells| - 1];
      Truthy(cells[..|cells| - 1]) + (if IsTruthy(last) then [last.value] else [])
  }

  /** A text is among the truthy texts exactly when some cell holds it and it is not empty. */
  lemma {:induction false} TruthyMembers(cells: seq<Option<string>>, x: string)
    ensures x in Truthy(cells) <==> x != "" && Some(x) in cells
  {
    if |cells| > 0 {
      var init := cells[..|cells| - 1];
      TruthyMembers(init, x);
      assert cells == init + [cells[|cells| - 1]];
    }
  }

  /**
    * `populateFilters`: the distinct truthy types and the distinct truthy
    * compliance texts of the loaded sheet, each in order of first
    * appearance, as the two `Set`s hold them.
    */
  method PopulateFilters(tickets: seq<Ticket>) returns (types: seq<string>, compliances: seq<string>)
    ensures types == Distinct(Truthy(TypeCells(tickets)))
    ensures compliances == Distinct(Truthy(ComplianceCells(tickets)))
  {
    types, compliances := [], [];
    var i := 0;
    while i < |tickets|
      invariant 0 <= i <= |tickets|
      invariant OfferedSoFar(tickets, i, types, compliances)
    {
      var ticket := tickets[i];
      OfferedStep(tickets, i, types, compliances);
      types := AddTruthy(types, ticket.ticketType);
      compliances := AddTruthy(compliances, ticket.slaCompliance);
      i := i + 1;
    }
    OfferedAll(tickets, types, compliances);
  }

  /** After the last ticket the choices are those of the whole sheet. */
  lemma OfferedAll(tickets: seq<Ticket>, types: seq<string>, compliances: seq<string>)
    requires OfferedSoFar(tickets, |tickets|, types, compliances)
    ensures types == Distinct(Truthy(TypeCells(tickets)))
    ensures compliances == Distinct(Truthy(ComplianceCells(tickets)))
  {
    assert tickets[..|tickets|] == tickets;
  }

  /** `types` and `compliances` are what the drop-downs offer after the first `n` tickets. */
  ghost predicate OfferedSoFar(tickets: seq<Ticket>, n: int, types: seq<string>, compliances: seq<string>)
    reads tickets
  {
    && 0 <= n <= |tickets|
    && types == Distinct(Truthy(TypeCells(tickets[..n])))
    && compliances == Distinct(Truthy(ComplianceCells(tickets[..n])))
  }

  /** `if (cell) set.add(cell)`: a truthy text not yet in the set joins it at the end; otherwise nothing changes. */
  function AddTruthy(texts: seq<string>, cell: Option<string>): (r: seq<string>)
    ensures NoDuplicates(texts) ==> NoDuplicates(r)
    ensures forall x :: x in r <==> x in texts || (IsTruthy(cell) && x == cell.value)
    ensures texts <= r
  {
    if IsTruthy(cell) && cell.value !in texts then texts + [cell.value] else texts
  }

  /** One more ticket adds its type and its compliance text to the offered choices, each when truthy and new. */
  lemma OfferedStep(tickets: seq<Ticket>, n: int, types: seq<string>, compliances: seq<string>)
    requires OfferedSoFar(tickets, n, types, compliances) && n < |tickets|
    ensures OfferedSoFar(tickets, n + 1, AddTruthy(types, tickets[n].ticketType), AddTruthy(compliances, tickets[n].slaCompliance))
  {
    TypeStep(tickets, n);
    ComplianceStep(tickets, n);
  }

  /** One more ticket adds its type to the offered types when that type is truthy and new. */
  lemma TypeStep(ts: seq<Ticket>, i: nat)
    requires i < |ts|
    ensures var before := Distinct(Truthy(TypeCells(ts[..i])));
      var cell := ts[i].ticketType;
      Distinct(Truthy(TypeCells(ts[..i + 1])))
        == if IsTruthy(cell) && cell.value !in before then before + [cell.value] else before
  {
    assert ts[..i + 1][..i] == ts[..i];
    var cells := TypeCells(ts[..i + 1]);
    assert cells[..i] == TypeCells(ts[..i]);
    if IsTruthy(ts[i].ticketType) {
      DistinctSnoc(Truthy(TypeCells(ts[..i])), ts[i].ticketType.value);
    } else {
      assert cells[|cells| - 1] == ts[i].ticketType;
      assert Truthy(cells) == Truthy(cells[..i]) + [];
      assert Truthy(cells) == Truthy(TypeCells(ts[..i]));
    }
  }

  /** One more ticket adds its compliance text to the offered texts when that text is truthy and new. */
  lemma ComplianceStep(ts: seq<Ticket>, i: nat)
    requires i < |ts|
    ensures var before := Distinct(Truthy(ComplianceCells(ts[..i])));
      var cell := ts[i].slaCompliance;
      Distinct(Truthy(ComplianceCells(ts[..i + 1])))
        == if IsTruthy(cell) && cell.value !in before then before + [cell.value] else before
  {
    assert ts[..i + 1][..i] == ts[..i];
    var cells := ComplianceCells(ts[..i + 1]);
    assert cells[..i] == ComplianceCells(ts[..i]);
    if IsTruthy(ts[i].slaCompliance) {
      DistinctSnoc(Truthy(ComplianceCells(ts[..i])), ts[i].slaCompliance.value);
    } else {
      assert cells[|cells| - 1] == ts[i].slaCompliance;
      assert Truthy(cells) == Truthy(cells[..i]) + [];
      assert Truthy(cells) == Truthy(ComplianceCells(ts[..i]));
    }
  }

  /** A type is offered exactly when some ticket carries it and it is not empty; no type is offered twice. */
  lemma OfferedTypes(tickets: seq<Ticket>, x: string)
    ensures x in Distinct(Truthy(TypeCells(tickets))) <==> x != "" && exists t :: t in tickets && t.ticketType == Some(x)
    ensures NoDuplicates(Distinct(Truthy(TypeCells(tickets))))
  {
    DistinctSameElements(Truthy(TypeCells(tickets)));
    TruthyMembers(TypeCells(tickets), x);
    DistinctNoDuplicates(Truthy(TypeCells(tickets)));
    if Some(x) in TypeCells(tickets) {
      var i :| 0 <= i < |tickets| && TypeCells(tickets)[i] == Some(x);
      assert tickets[i] in tickets;
    }
  }

  /**
    * The test of the report's `filter`: an empty filter lets every ticket
    * through; otherwise the type, or the compliance text, must equal it.
    */
  predicate Matches(t: Ticket, typeFilter: string, complianceFilter: string)
    reads t
    ensures typeFilter == "" && complianceFilter == "" ==> Matches(t, typeFilter, complianceFilter)
    ensures t.ticketType == Some(typeFilter) && t.slaCompliance == Some(complianceFilter) ==> Matches(t, typeFilter, complianceFilter)
    ensures Matches(t, typeFilter, complianceFilter) && typeFilter != "" ==> t.ticketType == Some(typeFilter)
    ensures Matches(t, typeFilter, complianceFilter) && complianceFilter != "" ==> t.slaCompliance == Some(complianceFilter)
  {
    && (typeFilter == "" || t.ticketType == Some(typeFilter))
    && (complianceFilter == "" || t.slaCompliance == Some(complianceFilter))
  }

  /** `ticketData.filter(...)`: the tickets that pass the test, in their order. */
  function FilterTickets(ts: seq<Ticket>, typeFilter: string, complianceFilter: string): (r: seq<Ticket>)
    reads set t | t in ts
    ensures |r| <= |ts|
  {
    if |ts| == 0 then []
    else
      var last := ts[|ts| - 1];
      FilterTickets(ts[..|ts| - 1], typeFilter, complianceFilter)
        + (if Matches(last, typeFilter, complianceFilter) then [last] else [])
  }

  /** A ticket is shown exactly when it is in the sheet and passes the test. */
  lemma {:induction false} FilterMembers(ts: seq<Ticket>, typeFilter: string, complianceFilter: string, t: Ticket)
    ensures t in FilterTickets(ts, typeFilter, complianceFilter) <==> t in ts && Matches(t, typeFilter, complianceFilter)
  {
    if |ts| > 0 {
      var init := ts[..|ts| - 1];
      FilterMembers(init, typeFilter, complianceFilter, t);
      assert ts == init + [ts[|ts| - 1]];
    }
  }

  /** Filtering keeps the sheet's order: filtering two runs of tickets filters each and joins the results. */
  lemma {:induction false} FilterAppend(xs: seq<Ticket>, ys: seq<Ticket>, typeFilter: string, complianceFilter: string)
    ensures FilterTickets(xs + ys, typeFilter, complianceFilter)
      == FilterTickets(xs, typeFilter, complianceFilter) + FilterTickets(ys, typeFilter, complianceFilter)
  {
    if |ys| == 0 {
      assert xs + ys == xs;
    } else {
      var init := ys[..|ys| - 1];
      FilterAppend(xs, init, typeFilter, complianceFilter);
      assert (xs + ys)[..|xs + ys| - 1] == xs + init;
    }
  }

  /** With both filters empty every ticket is shown. */
  lemma {:induction false} NoFilterShowsAll(ts: seq<Ticket>)
    ensures FilterTickets(ts, "", "") == ts
  {
    if |ts| > 0 {
      NoFilterShowsAll(ts[..|ts| - 1]);
    }
  }

  /** Filtering the filtered tickets again with the same filters changes nothing. */
  lemma {:induction false} FilterIdempotent(ts: seq<Ticket>, typeFilter: string, complianceFilter: string)
    ensures FilterTickets(FilterTickets(ts, typeFilter, complianceFilter), typeFilter, complianceFilter)
      == FilterTickets(ts, typeFilter, complianceFilter)
  {
    if |ts| > 0 {
      var init := ts[..|ts| - 1];
      var last := ts[|ts| - 1];
      FilterIdempotent(init, typeFilter, complianceFilter);
      var once := FilterTickets(init, typeFilter, complianceFilter);
      if Matches(last, typeFilter, complianceFilter) {
        assert FilterTickets(ts, typeFilter, complianceFilter) == once + [last];
        FilterAppend(once, [last], typeFilter, complianceFilter);
        assert [last][..0] == [];
        assert FilterTickets([last], typeFilter, complianceFilter) == [last];
      } else {
        assert FilterTickets(ts, typeFilter, complianceFilter) == once;
      }
    }
  }

  /** Every offered type selects at least one ticket of the loaded sheet. */
  lemma OfferedTypeSelectsTickets(tickets: seq<Ticket>, x: string)
    requires x in Distinct(Truthy(TypeCells(tickets)))
    ensures |FilterTickets(tickets, x, "")| > 0
  {
    OfferedTypes(tickets, x);
    var t :| t in tickets && t.ticketType == Some(x);
    FilterMembers(tickets, x, "", t);
  }
}
