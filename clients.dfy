/**
 * The `abonizera` table: one row per product a client (a telephone) owes
 * for. This module holds the row type, the defaults the handlers fill in,
 * the ordered checks of create, add-product and update, and the statements
 * that select, update and delete rows by telephone, including the balance
 * computation of update-balance.
 */
module Clients {
  import opened Wrappers
  import opened Responses
  import opened Tables
  import opened Validation

  /** What `parseInt` reads from a stored amount: an integer, or NaN. */
  datatype Amount = Num(value: int) | NotANumber

  /** `parseInt(x) || 0`: an amount that does not parse counts as 0. */
  function AmountValue(a: Amount): (n: int)
    ensures a.Num? ==> n == a.value
    ensures a.NotANumber? ==> n == 0
  {
    match a
    case Num(n) => n
    case NotANumber => 0
  }

  /** An `abonizera` row besides its id (`igicuruzwa` is `product`, `amafaranga` is `amount`); 0 stands for a NULL user id. */
  datatype Client = Client(
    amazina: string,
    telephone: string,
    product: string,
    amount: Amount,
    createdBy: nat,
    creatorTelephone: string,
    creatorName: string,
    updatedBy: nat)

  /** `igicuruzwa || "Nta bicuruzwa"` */
  const NoProducts: string := "Nta bicuruzwa"

  /** `creator_name || "System"` */
  const DefaultCreator: string := "System"

  /** `amafaranga || "0"`: an absent or falsy amount is stored as "0". */
  function AmountOrZero(amount: Option<Amount>): Amount
  {
    amount.GetOr(Num(0))
  }

  function ProductOrDefault(product: string): string
  {
    if Present(product) then product else NoProducts
  }

  function CreatorOrDefault(creatorName: string): string
  {
    if Present(creatorName) then creatorName else DefaultCreator
  }

  /** The checks of POST /api/clients, in order. */
  function CreateRejection(amazina: string, telephone: string, createdBy: nat, creatorTelephone: string): (r: Option<Reason>)
    ensures r.None? <==>
              Present(amazina) && Present(telephone) && createdBy != 0 && Present(creatorTelephone) && IsTelephone(telephone)
    ensures r == Some(MissingFields) <==>
              !Present(amazina) || !Present(telephone) || createdBy == 0 || !Present(creatorTelephone)
    ensures r == Some(BadTelephone) <==>
              Present(amazina) && Present(telephone) && createdBy != 0 && Present(creatorTelephone) && !IsTelephone(telephone)
    ensures r.Some? ==> Status(r.value) == 400
  {
    if !Present(amazina) || !Present(telephone) || createdBy == 0 || !Present(creatorTelephone) then Some(MissingFields)
    else if !IsTelephone(telephone) then Some(BadTelephone)
    else None
  }

  /** The row POST /api/clients inserts: a new client with its first product, defaults filled in. */
  function NewClient(amazina: string, telephone: string, product: string, amount: Option<Amount>,
                     createdBy: nat, creatorTelephone: string, creatorName: string): (c: Client)
    ensures c.amazina == amazina && c.telephone == telephone
    ensures Present(product) ==> c.product == product
    ensures c.product == NoProducts <==> !Present(product) || product == NoProducts
    ensures amount.Some? ==> c.amount == amount.value
    ensures amount.None? ==> c.amount == Num(0)
    ensures c.createdBy == createdBy && c.creatorTelephone == creatorTelephone && c.updatedBy == 0
    ensures Present(creatorName) ==> c.creatorName == creatorName
    ensures !Present(creatorName) ==> c.creatorName == DefaultCreator
  {
    Client(amazina, telephone, ProductOrDefault(product), AmountOrZero(amount),
           createdBy, creatorTelephone, CreatorOrDefault(creatorName), 0)
  }

  /** SELECT ... FROM abonizera WHERE telephone = ? LIMIT 1, taken as the first row in table order. */
  function FirstWithTelephone(rows: seq<Row<Client>>, telephone: string): (r: Option<Row<Client>>)
    ensures r.None? <==> forall i :: 0 <= i < |rows| ==> rows[i].data.telephone != telephone
    ensures r.Some? ==> exists k :: 0 <= k < |rows| && rows[k] == r.value && r.value.data.telephone == telephone &&
                                    forall j :: 0 <= j < k ==> rows[j].data.telephone != telephone
  {
    if rows == [] then None
    else if rows[0].data.telephone == telephone then Some(rows[0])
    else
      var r := FirstWithTelephone(rows[1..], telephone);
      assert forall i :: 1 <= i < |rows| ==> rows[i] == rows[1..][i - 1];
      r
  }

  /** The checks of POST /api/clients/add-product, in order: fields, telephone format, an existing client. */
  function AddProductRejection(rows: seq<Row<Client>>, telephone: string, product: string, createdBy: nat,
                               creatorTelephone: string): (r: Option<Reason>)
    ensures r.None? <==>
              Present(telephone) && Present(product) && createdBy != 0 && Present(creatorTelephone) &&
              IsTelephone(telephone) && exists i :: 0 <= i < |rows| && rows[i].data.telephone == telephone
    ensures r == Some(MissingFields) <==>
              !Present(telephone) || !Present(product) || createdBy == 0 || !Present(creatorTelephone)
    ensures r == Some(BadTelephone) <==>
              Present(telephone) && Present(product) && createdBy != 0 && Present(creatorTelephone) &&
              !IsTelephone(telephone)
    ensures r == Some(ClientNotFound) <==>
              Present(telephone) && Present(product) && createdBy != 0 && Present(creatorTelephone) &&
              IsTelephone(telephone) && forall i :: 0 <= i < |rows| ==> rows[i].data.telephone != telephone
    ensures r.Some? ==> Status(r.value) == (if r.value == ClientNotFound then 404 else 400)
  {
    if !Present(telephone) || !Present(product) || createdBy == 0 || !Present(creatorTelephone) then Some(MissingFields)
    else if !IsTelephone(telephone) then Some(BadTelephone)
    else if FirstWithTelephone(rows, telephone).None? then Some(ClientNotFound)
    else None
  }

  /** The row add-product inserts: the client's name copied from its first row, the product as given. */
  function AddedProduct(existing: Client, telephone: string, product: string, amount: Option<Amount>,
                        createdBy: nat, creatorTelephone: string, creatorName: string): (c: Client)
    ensures c.amazina == existing.amazina && c.telephone == telephone && c.product == product
    ensures amount.Some? ==> c.amount == amount.value
    ensures amount.None? ==> c.amount == Num(0)
    ensures c.createdBy == createdBy && c.creatorTelephone == creatorTelephone && c.updatedBy == 0
    ensures Present(creatorName) ==> c.creatorName == creatorName
    ensures !Present(creatorName) ==> c.creatorName == DefaultCreator
  {
    Client(existing.amazina, telephone, product, AmountOrZero(amount),
           createdBy, creatorTelephone, CreatorOrDefault(creatorName), 0)
  }

  /** The checks of PUT /api/clients/:id, in order: fields, telephone format, the row. */
  function UpdateRejection(rows: seq<Row<Client>>, id: nat, amazina: string, telephone: string): (r: Option<Reason>)
    ensures r.None? <==> Present(amazina) && IsTelephone(telephone) && Find(rows, id).Some?
    ensures r == Some(MissingFields) <==> !Present(amazina) || !Present(telephone)
    ensures r == Some(BadTelephone) <==> Present(amazina) && Present(telephone) && !IsTelephone(telephone)
    ensures r == Some(ClientNotFound) <==> Present(amazina) && IsTelephone(telephone) && Find(rows, id).None?
    ensures r.Some? ==> Status(r.value) == (if r.value == ClientNotFound then 404 else 400)
  {
    if !Present(amazina) || !Present(telephone) then Some(MissingFields)
    else if !IsTelephone(telephone) then Some(BadTelephone)
    else if Find(rows, id).None? then Some(ClientNotFound)
    else None
  }

  /** SET amazina = ?, telephone = ?, igicuruzwa = ?, amafaranga = ?: the four columns, with create's defaults. */
  function Overwritten(c: Client, amazina: string, telephone: string, product: string, amount: Option<Amount>): (d: Client)
    ensures d.amazina == amazina && d.telephone == telephone
    ensures Present(product) ==> d.product == product
    ensures !Present(product) ==> d.product == NoProducts
    ensures amount.Some? ==> d.amount == amount.value
    ensures amount.None? ==> d.amount == Num(0)
    ensures d.createdBy == c.createdBy && d.creatorTelephone == c.creatorTelephone &&
            d.creatorName == c.creatorName && d.updatedBy == c.updatedBy
  {
    c.(amazina := amazina, telephone := telephone, product := ProductOrDefault(product), amount := AmountOrZero(amount))
  }

  /** SELECT ... FROM abonizera WHERE telephone = ?, in table order. */
  function WithTelephone(rows: seq<Row<Client>>, telephone: string): (r: seq<Row<Client>>)
    ensures |r| <= |rows|
    ensures forall i :: 0 <= i < |r| ==> r[i] in rows && r[i].data.telephone == telephone
    ensures forall i :: 0 <= i < |rows| && rows[i].data.telephone == telephone ==> rows[i] in r
  {
    if rows == [] then []
    else (if rows[0].data.telephone == telephone then [rows[0]] else []) + WithTelephone(rows[1..], telephone)
  }

  /** DELETE FROM abonizera WHERE telephone = ?: every row with another telephone, in the same order. */
  function WithoutTelephone(rows: seq<Row<Client>>, telephone: string): (r: seq<Row<Client>>)
    ensures |r| == |rows| - |WithTelephone(rows, telephone)|
    ensures forall i :: 0 <= i < |r| ==> r[i] in rows && r[i].data.telephone != telephone
    ensures forall i :: 0 <= i < |rows| && rows[i].data.telephone != telephone ==> rows[i] in r
  {
    if rows == [] then []
    else (if rows[0].data.telephone == telephone then [] else [rows[0]]) + WithoutTelephone(rows[1..], telephone)
  }

  /** The `newBalance` and `client` of the update-balance response. */
  datatype BalanceReply = BalanceReply(newBalance: int, client: Row<Client>)

  /**
   * PUT /api/clients/update-balance up to its UPDATE: the first row with the telephone, and
   * `parseInt(client.amafaranga) + parseInt(additionalAmount)` with no `|| 0`, so a NaN on
   * either side gives a NaN balance, which the database refuses.
   */
  function BalanceUpdate(rows: seq<Row<Client>>, telephone: string, additional: Amount): (r: Result<BalanceReply>)
    ensures r == Err(ClientNotFound) <==> forall i :: 0 <= i < |rows| ==> rows[i].data.telephone != telephone
    ensures r.Err? ==> r.reason in {ClientNotFound, StoreRejected}
    ensures r == Err(StoreRejected) ==>
              FirstWithTelephone(rows, telephone).value.data.amount == NotANumber || additional == NotANumber
    ensures r.Ok? ==>
              var first := FirstWithTelephone(rows, telephone).value;
              first.data.amount.Num? && additional.Num? &&
              r.value.newBalance == first.data.amount.value + additional.value &&
              r.value.client == first.(data := first.data.(amount := Num(r.value.newBalance)))
  {
    match FirstWithTelephone(rows, telephone)
    case None => Err(ClientNotFound)
    case Some(first) =>
      match (first.data.amount, additional)
      case (Num(current), Num(extra)) =>
        var balance := current + extra;
        Ok(BalanceReply(balance, first.(data := first.data.(amount := Num(balance)))))
      case _ => Err(StoreRejected)
  }

  /** UPDATE abonizera SET amafaranga = ?, updated_by = ? WHERE telephone = ? */
  function SetBalance(rows: seq<Row<Client>>, telephone: string, balance: int, updatedBy: nat): (r: seq<Row<Client>>)
    ensures |r| == |rows|
    ensures forall i :: 0 <= i < |rows| ==>
              r[i] == (if rows[i].data.telephone == telephone
                       then rows[i].(data := rows[i].data.(amount := Num(balance), updatedBy := updatedBy))
                       else rows[i])
  {
    if rows == [] then []
    else
      var c := rows[0];
      [if c.data.telephone == telephone then c.(data := c.data.(amount := Num(balance), updatedBy := updatedBy)) else c]
        + SetBalance(rows[1..], telephone, balance, updatedBy)
  }

  /**
   * The update the handler evidently intends: the new balance on the row it read (`client`) only,
   * as `UPDATE abonizera SET amafaranga = ?, updated_by = ? WHERE id = ?` with `client.id` would do.
   */
  function SetReadRowBalance(rows: seq<Row<Client>>, client: Row<Client>, balance: int, updatedBy: nat)
    : (r: seq<Row<Client>>)
    ensures |r| == |rows|
    ensures forall i :: 0 <= i < |rows| ==>
              r[i] == (if rows[i].id == client.id
                       then Row(client.id, client.data.(amount := Num(balance), updatedBy := updatedBy))
                       else rows[i])
  {
    Replace(rows, client.id, client.data.(amount := Num(balance), updatedBy := updatedBy))
  }

  /** Selecting by telephone distributes over the two halves of a table. */
  lemma {:induction false} WithTelephoneConcat(a: seq<Row<Client>>, b: seq<Row<Client>>, telephone: string)
    ensures WithTelephone(a + b, telephone) == WithTelephone(a, telephone) + WithTelephone(b, telephone)
  {
    if a != [] {
      assert (a + b)[1..] == a[1..] + b;
      WithTelephoneConcat(a[1..], b, telephone);
    } else {
      assert a + b == b;
    }
  }

  /**
   * Deleting one product by id (DELETE ... WHERE id = ?) leaves exactly one row fewer under its
   * telephone and keeps every sibling row, that is every other row with the same telephone.
   */
  lemma DeleteProductKeepsSiblings(rows: seq<Row<Client>>, k: nat)
    requires Ascending(rows) && k < |rows|
    ensures |WithTelephone(Remove(rows, rows[k].id), rows[k].data.telephone)|
            == |WithTelephone(rows, rows[k].data.telephone)| - 1
    ensures forall i :: 0 <= i < |rows| && i != k ==> rows[i] in Remove(rows, rows[k].id)
  {
    RemoveExactlyOne(rows, k);
    WithTelephoneSplit(rows, k);
    forall i | 0 <= i < |rows| && i != k ensures rows[i] in Remove(rows, rows[k].id) {
      assert rows[i].id != rows[k].id;
    }
  }

  lemma WithTelephoneSplit(rows: seq<Row<Client>>, k: nat)
    requires k < |rows|
    ensures |WithTelephone(rows[..k] + rows[k + 1..], rows[k].data.telephone)|
            == |WithTelephone(rows, rows[k].data.telephone)| - 1
  {
    var telephone := rows[k].data.telephone;
    var before, after := rows[..k], rows[k + 1..];
    assert rows == before + ([rows[k]] + after);
    WithTelephoneConcat(before, [rows[k]] + after, telephone);
    WithTelephoneConcat([rows[k]], after, telephone);
    WithTelephoneConcat(before, after, telephone);
    assert WithTelephone([rows[k]], telephone) == [rows[k]] by {
      assert [rows[k]][1..] == [];
    }
  }

  /** Update-balance changes amounts and `updated_by` only, so ids and telephones stay where they were. */
  lemma SetBalanceKeepsKeys(rows: seq<Row<Client>>, telephone: string, balance: int, updatedBy: nat)
    ensures forall i :: 0 <= i < |rows| ==>
              SetBalance(rows, telephone, balance, updatedBy)[i].id == rows[i].id &&
              SetBalance(rows, telephone, balance, updatedBy)[i].data.telephone == rows[i].data.telephone
  {
  }

  /** Deleting a client's rows keeps the table well formed: the rows left keep their order and ids. */
  lemma {:induction false} WithoutTelephoneWellFormed(rows: seq<Row<Client>>, next: nat, telephone: string)
    requires WellFormed(rows, next)
    ensures WellFormed(WithoutTelephone(rows, telephone), next)
  {
    if rows != [] {
      TailAscending(rows);
      WithoutTelephoneWellFormed(rows[1..], next, telephone);
      var rest := WithoutTelephone(rows[1..], telephone);
      forall i | 0 <= i < |rest| ensures rows[0].id < rest[i].id {
        var k :| 0 <= k < |rows[1..]| && rows[1..][k] == rest[i];
      }
      if rows[0].data.telephone != telephone {
        ConsAscending(rows[0], rest);
      }
    }
  }
}
