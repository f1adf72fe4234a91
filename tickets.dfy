/**
 * The `ticket` table and its CRUD routes. Listings are newest first
 * (ORDER BY id DESC); reads after each write are stated as lemmas.
 */
module Tickets {
  import opened Wrappers
  import opened Responses
  import opened Validation
  import opened Tables

  /** One `ticket` row; `description || null` stores None for an absent description. */
  datatype Ticket = Ticket(amazina: string, telephone: string, description: Option<string>)

  /** The checks shared by create and update, in their order. */
  function TicketRejection(amazina: string, telephone: string): (r: Option<Reason>)
    ensures r.None? <==> Present(amazina) && IsTelephone(telephone)
    ensures r == Some(MissingFields) <==> !Present(amazina) || !Present(telephone)
    ensures r == Some(BadTelephone) <==> Present(amazina) && Present(telephone) && !IsTelephone(telephone)
  {
    if !Present(amazina) || !Present(telephone) then Some(MissingFields)
    else if !IsTelephone(telephone) then Some(BadTelephone)
    else None
  }

  /** The columns written by INSERT and by UPDATE. */
  function TicketOf(amazina: string, telephone: string, description: string): (t: Ticket)
    ensures t.amazina == amazina && t.telephone == telephone
    ensures t.description.None? <==> !Present(description)
    ensures t.description.Some? ==> t.description.value == description
  {
    Ticket(amazina, telephone, if Present(description) then Some(description) else None)
  }

  /** GET /api/tickets/:id */
  function TicketById(rows: seq<Row<Ticket>>, id: nat): (r: Result<Row<Ticket>>)
    ensures r.Err? <==> forall i :: 0 <= i < |rows| ==> rows[i].id != id
    ensures r.Err? ==> r.reason == TicketNotFound && Status(r.reason) == 404
    ensures r.Ok? ==> r.value.id == id && r.value in rows
  {
    match Find(rows, id)
    case None => Err(TicketNotFound)
    case Some(t) => Ok(t)
  }

  /** PUT /api/tickets/:id: the field checks first, then the existence check. */
  function UpdateRejection(rows: seq<Row<Ticket>>, id: nat, amazina: string, telephone: string): (r: Option<Reason>)
    ensures r.None? <==> TicketRejection(amazina, telephone).None? && TicketById(rows, id).Ok?
    ensures TicketRejection(amazina, telephone).Some? ==> r == TicketRejection(amazina, telephone)
    ensures r == Some(TicketNotFound) <==> TicketRejection(amazina, telephone).None? && TicketById(rows, id).Err?
  {
    if TicketRejection(amazina, telephone).Some? then TicketRejection(amazina, telephone)
    else if Find(rows, id).None? then Some(TicketNotFound)
    else None
  }

  /** GET /api/tickets: all tickets, newest first. */
  function Newest(rows: seq<Row<Ticket>>): (r: seq<Row<Ticket>>)
    requires Ascending(rows)
    ensures |r| == |rows| && multiset(r) == multiset(rows)
    ensures forall i, j :: 0 <= i < j < |r| ==> r[i].id > r[j].id
  {
    ReverseMultiset(rows);
    Reverse(rows)
  }

  lemma {:induction false} ReverseMultiset<T>(s: seq<T>)
    ensures multiset(Reverse(s)) == multiset(s)
  {
    if s != [] {
      ReverseMultiset(s[1..]);
      assert s == [s[0]] + s[1..];
    }
  }

  /** A created ticket is found under the id it was given. */
  lemma CreateThenGet(rows: seq<Row<Ticket>>, next: nat, t: Ticket)
    requires WellFormed(rows, next)
    ensures TicketById(Insert(rows, next, t), next) == Ok(Row(next, t))
  {
    FindInserted(rows, next, t, next);
  }

  /** After an update the ticket reads back with the new columns and the same id. */
  lemma UpdateThenGet(rows: seq<Row<Ticket>>, id: nat, t: Ticket)
    requires TicketById(rows, id).Ok?
    ensures TicketById(Replace(rows, id, t), id) == Ok(Row(id, t))
  {
    FindReplaced(rows, id, t, id);
  }

  /** After a delete the ticket is gone and every other ticket reads back as before. */
  lemma DeleteThenGet(rows: seq<Row<Ticket>>, id: nat, other: nat)
    ensures TicketById(Remove(rows, id), id) == Err(TicketNotFound)
    ensures other != id ==> TicketById(Remove(rows, id), other) == TicketById(rows, other)
  {
    FindRemoved(rows, id, other);
  }
}
