/**
 * The `history` table: payment records appended by POST /api/history and,
 * as a side effect, by the balance update. Rows are only ever appended.
 */
module History {
  import opened Wrappers
  import opened Responses
  import opened Validation
  import opened Clients

  /**
   * One `history` row. `abonizeraId` 0 is NULL (the balance update leaves it out),
   * `date` None is a NULL `history_date` (the payment route leaves it out).
   */
  datatype Entry = Entry(abonizeraId: nat, amazina: string, telephone: string, amount: Amount,
                         product: string, createdBy: nat, date: Option<int>)

  /** POST /api/history validates presence only: no telephone format and no amount check. */
  function RecordRejection(abonizeraId: nat, amazina: string, telephone: string): (r: Option<Reason>)
    ensures r.None? <==> abonizeraId != 0 && Present(amazina) && Present(telephone)
    ensures r.Some? ==> r.value == MissingFields && Status(r.value) == 400
  {
    if abonizeraId == 0 || !Present(amazina) || !Present(telephone) then Some(MissingFields) else None
  }

  /** The row POST /api/history inserts: the amount defaults to "0"; product, author and date stay NULL. */
  function Payment(abonizeraId: nat, amazina: string, telephone: string, amount: Option<Amount>): (e: Entry)
    ensures e.abonizeraId == abonizeraId && e.amazina == amazina && e.telephone == telephone
    ensures amount.Some? ==> e.amount == amount.value
    ensures amount.None? ==> e.amount == Num(0)
    ensures e.product == "" && e.createdBy == 0 && e.date.None?
  {
    Entry(abonizeraId, amazina, telephone, AmountOrZero(amount), "", 0, None)
  }

  /**
   * The row the balance update inserts after its UPDATE: the name and telephone of the client row it
   * read, the amount as sent (not the new balance), the new product, its author and the time of the call.
   */
  function BalanceRecord(client: Client, additional: Amount, newProduct: string, updatedBy: nat, now: int): (e: Entry)
    ensures e.amazina == client.amazina && e.telephone == client.telephone
    ensures e.amount == additional && e.product == newProduct && e.createdBy == updatedBy
    ensures e.abonizeraId == 0 && e.date == Some(now)
  {
    Entry(0, client.amazina, client.telephone, additional, newProduct, updatedBy, Some(now))
  }
}
