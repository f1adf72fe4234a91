/**
 * The read-only client endpoints: one row by id, the rows a user created,
 * the telephone check, the per-telephone client view (name, total, product
 * list) and the statistics over the whole `abonizera` table. Rows listed
 * "ORDER BY a.id DESC" are the table reversed, since ids ascend in table order.
 */
module ClientViews {
  import opened Wrappers
  import opened Responses
  import opened Tables
  import opened Accounts
  import opened Clients

  /** The `creator_name` and `creator_telephone` of `LEFT JOIN users u ON a.created_by = u.id`: NULL when no user has that id. */
  datatype Creator = Creator(name: Option<string>, telephone: Option<string>)

  function CreatorOf(users: seq<Row<User>>, createdBy: nat): (c: Creator)
    ensures c.name.Some? <==> Find(users, createdBy).Some?
    ensures c.name.Some? ==> c.name.value == Find(users, createdBy).value.data.amazina &&
                             c.telephone == Some(Find(users, createdBy).value.data.telephone)
  {
    match Find(users, createdBy)
    case None => Creator(None, None)
    case Some(u) => Creator(Some(u.data.amazina), Some(u.data.telephone))
  }

  /** A row of a joined listing: the `abonizera` columns, the creator columns replaced by the join's. */
  datatype Listed = Listed(row: Row<Client>, creator: Creator)

  function Joined(users: seq<Row<User>>, rows: seq<Row<Client>>): (r: seq<Listed>)
    ensures |r| == |rows| && forall i :: 0 <= i < |rows| ==> r[i] == Listed(rows[i], CreatorOf(users, rows[i].data.createdBy))
  {
    if rows == [] then [] else [Listed(rows[0], CreatorOf(users, rows[0].data.createdBy))] + Joined(users, rows[1..])
  }

  /** GET /api/clients/:id */
  function ClientById(rows: seq<Row<Client>>, users: seq<Row<User>>, id: nat): (r: Result<Listed>)
    ensures r.Err? <==> forall i :: 0 <= i < |rows| ==> rows[i].id != id
    ensures r.Err? ==> r.reason == ClientNotFound
    ensures r.Ok? ==> r.value.row.id == id && r.value.row in rows &&
                      r.value.creator == CreatorOf(users, r.value.row.data.createdBy)
  {
    match Find(rows, id)
    case None => Err(ClientNotFound)
    case Some(row) => Ok(Listed(row, CreatorOf(users, row.data.createdBy)))
  }

  /** The rows a user created (`a.created_by = ?`), in table order. */
  function CreatedBy(rows: seq<Row<Client>>, userId: nat): (r: seq<Row<Client>>)
    ensures forall i :: 0 <= i < |r| ==> r[i] in rows && r[i].data.createdBy == userId
    ensures forall i :: 0 <= i < |rows| && rows[i].data.createdBy == userId ==> rows[i] in r
  {
    if rows == [] then []
    else (if rows[0].data.createdBy == userId then [rows[0]] else []) + CreatedBy(rows[1..], userId)
  }

  /** A selection of a table with ascending ids has ascending ids. */
  lemma {:induction false} CreatedByAscending(rows: seq<Row<Client>>, userId: nat)
    requires Ascending(rows)
    ensures Ascending(CreatedBy(rows, userId))
  {
    if rows != [] {
      TailAscending(rows);
      CreatedByAscending(rows[1..], userId);
      var rest := CreatedBy(rows[1..], userId);
      forall i | 0 <= i < |rest| ensures rows[0].id < rest[i].id {
        var k :| 0 <= k < |rows[1..]| && rows[1..][k] == rest[i];
      }
      if rows[0].data.createdBy == userId {
        ConsAscending(rows[0], rest);
      }
    }
  }

  /** The rows of one telephone, taken from a table with ascending ids, have ascending ids. */
  lemma {:induction false} WithTelephoneAscending(rows: seq<Row<Client>>, telephone: string)
    requires Ascending(rows)
    ensures Ascending(WithTelephone(rows, telephone))
  {
    if rows != [] {
      TailAscending(rows);
      WithTelephoneAscending(rows[1..], telephone);
      var rest := WithTelephone(rows[1..], telephone);
      forall i | 0 <= i < |rest| ensures rows[0].id < rest[i].id {
        var k :| 0 <= k < |rows[1..]| && rows[1..][k] == rest[i];
      }
      if rows[0].data.telephone == telephone {
        ConsAscending(rows[0], rest);
      }
    }
  }

  /** GET /api/my-clients/:userId: the user's rows, newest first, with the creator join. */
  function MyClients(rows: seq<Row<Client>>, users: seq<Row<User>>, userId: nat): (r: seq<Listed>)
    requires Ascending(rows)
    ensures forall i :: 0 <= i < |r| ==>
              r[i].row in rows && r[i].row.data.createdBy == userId &&
              r[i].creator == CreatorOf(users, r[i].row.data.createdBy)
    ensures forall i, j :: 0 <= i < j < |r| ==> r[i].row.id > r[j].row.id
  {
    CreatedByAscending(rows, userId);
    Joined(users, Reverse(CreatedBy(rows, userId)))
  }

  /** No row of the user's is missing from the listing. */
  lemma MyClientsComplete(rows: seq<Row<Client>>, users: seq<Row<User>>, userId: nat, i: nat)
    requires Ascending(rows) && i < |rows| && rows[i].data.createdBy == userId
    ensures exists j :: 0 <= j < |MyClients(rows, users, userId)| && MyClients(rows, users, userId)[j].row == rows[i]
  {
    var mine := CreatedBy(rows, userId);
    var m :| 0 <= m < |mine| && mine[m] == rows[i];
    assert MyClients(rows, users, userId)[|mine| - 1 - m].row == rows[i];
  }

  /** GET /api/clients/check-telephone/:telephone: the name on the first row, when there is one. */
  function CheckTelephone(rows: seq<Row<Client>>, telephone: string): (r: Option<string>)
    ensures r.None? <==> forall i :: 0 <= i < |rows| ==> rows[i].data.telephone != telephone
    ensures r.Some? ==> exists i :: 0 <= i < |rows| && rows[i].data.telephone == telephone && rows[i].data.amazina == r.value
  {
    match FirstWithTelephone(rows, telephone)
    case None => None
    case Some(row) => Some(row.data.amazina)
  }

  /** One entry of the client view's `products` list. */
  datatype ProductEntry = ProductEntry(id: nat, product: string, amount: int, createdBy: nat, creator: Creator)

  /** The `client` object of GET /api/clients/telephone/:telephone. */
  datatype ClientView = ClientView(amazina: string, telephone: string, totalAmount: int, products: seq<ProductEntry>)

  function Entries(rows: seq<Row<Client>>, users: seq<Row<User>>): (r: seq<ProductEntry>)
    ensures |r| == |rows|
    ensures forall i :: 0 <= i < |rows| ==>
              r[i] == ProductEntry(rows[i].id, rows[i].data.product, AmountValue(rows[i].data.amount),
                                   rows[i].data.createdBy, CreatorOf(users, rows[i].data.createdBy))
  {
    if rows == [] then []
    else
      var c := rows[0];
      [ProductEntry(c.id, c.data.product, AmountValue(c.data.amount), c.data.createdBy, CreatorOf(users, c.data.createdBy))]
        + Entries(rows[1..], users)
  }

  /** `reduce((sum, client) => sum + (parseInt(client.amafaranga) || 0), 0)` */
  function Debt(rows: seq<Row<Client>>): int
  {
    if rows == [] then 0 else AmountValue(rows[0].data.amount) + Debt(rows[1..])
  }

  /** The sum of the entries' amounts, as a reader of the response would add them up. */
  function SumOfEntries(entries: seq<ProductEntry>): int
  {
    if entries == [] then 0 else entries[0].amount + SumOfEntries(entries[1..])
  }

  /**
   * One client grouped from the rows of its telephone: the products newest first, the name on the
   * newest row, and the total of the amounts.
   */
  function GroupView(mine: seq<Row<Client>>, users: seq<Row<User>>, telephone: string): (v: ClientView)
    requires mine != []
    ensures v.amazina == mine[|mine| - 1].data.amazina && v.telephone == telephone
    ensures |v.products| == |mine|
    ensures forall j :: 0 <= j < |mine| ==>
              v.products[j] == ProductEntry(mine[|mine| - 1 - j].id, mine[|mine| - 1 - j].data.product,
                                            AmountValue(mine[|mine| - 1 - j].data.amount),
                                            mine[|mine| - 1 - j].data.createdBy,
                                            CreatorOf(users, mine[|mine| - 1 - j].data.createdBy))
    ensures v.totalAmount == SumOfEntries(v.products) && v.totalAmount == Debt(mine)
  {
    var newest := Reverse(mine);
    DebtReverse(mine);
    DebtIsSumOfEntries(newest, users);
    ClientView(newest[0].data.amazina, telephone, Debt(newest), Entries(newest, users))
  }

  /** GET /api/clients/telephone/:telephone: the rows of that telephone, newest first, grouped into one client. */
  function ClientByTelephone(rows: seq<Row<Client>>, users: seq<Row<User>>, telephone: string): (r: Result<ClientView>)
    ensures r.Err? <==> forall i :: 0 <= i < |rows| ==> rows[i].data.telephone != telephone
    ensures r.Err? ==> r.reason == ClientNotFound
    ensures r.Ok? ==>
              && r.value == GroupView(WithTelephone(rows, telephone), users, telephone)
              && r.value.telephone == telephone
              && |r.value.products| == |WithTelephone(rows, telephone)|
              && r.value.totalAmount == SumOfEntries(r.value.products)
              && r.value.totalAmount == Debt(WithTelephone(rows, telephone))
  {
    var mine := WithTelephone(rows, telephone);
    if mine == [] then
      Err(ClientNotFound)
    else
      assert mine[0] in rows;
      Ok(GroupView(mine, users, telephone))
  }

  /**
   * The view's product list holds one entry per row of the telephone, newest first, each with
   * that row's id and amount, and the view's name is the one on the newest row.
   */
  lemma ClientViewEntries(rows: seq<Row<Client>>, users: seq<Row<User>>, telephone: string, j: nat)
    requires ClientByTelephone(rows, users, telephone).Ok?
    requires j < |ClientByTelephone(rows, users, telephone).value.products|
    ensures var view := ClientByTelephone(rows, users, telephone).value;
            var mine := WithTelephone(rows, telephone);
            && view.amazina == mine[|mine| - 1].data.amazina
            && view.products[j].id == mine[|mine| - 1 - j].id
            && view.products[j].amount == AmountValue(mine[|mine| - 1 - j].data.amount)
            && mine[|mine| - 1 - j] in rows
            && mine[|mine| - 1 - j].data.telephone == telephone
  {
    RowWithTelephone(rows, telephone, |WithTelephone(rows, telephone)| - 1 - j);
  }

  /**
   * On a table with ascending ids the view lists the products newest first (`ORDER BY a.id DESC`),
   * and its name is the one on the telephone's row with the largest id (`clients[0].amazina`).
   */
  lemma ClientViewNewestFirst(rows: seq<Row<Client>>, users: seq<Row<User>>, telephone: string)
    requires Ascending(rows) && ClientByTelephone(rows, users, telephone).Ok?
    ensures var view := ClientByTelephone(rows, users, telephone).value;
            forall i, j :: 0 <= i < j < |view.products| ==> view.products[i].id > view.products[j].id
    ensures var view := ClientByTelephone(rows, users, telephone).value;
            exists k :: 0 <= k < |rows| && rows[k].data.telephone == telephone && rows[k].data.amazina == view.amazina &&
                        forall m :: 0 <= m < |rows| && rows[m].data.telephone == telephone ==> rows[m].id <= rows[k].id
  {
    var view := ClientByTelephone(rows, users, telephone).value;
    var mine := WithTelephone(rows, telephone);
    WithTelephoneAscending(rows, telephone);
    var last := mine[|mine| - 1];
    var k :| 0 <= k < |rows| && rows[k] == last;
    forall m | 0 <= m < |rows| && rows[m].data.telephone == telephone ensures rows[m].id <= rows[k].id {
      var p :| 0 <= p < |mine| && mine[p] == rows[m];
    }
  }

  lemma RowWithTelephone(rows: seq<Row<Client>>, telephone: string, k: nat)
    requires k < |WithTelephone(rows, telephone)|
    ensures WithTelephone(rows, telephone)[k] in rows && WithTelephone(rows, telephone)[k].data.telephone == telephone
  {
  }

  /** Every row with the telephone shows up in the view's product list. */
  lemma ClientViewComplete(rows: seq<Row<Client>>, users: seq<Row<User>>, telephone: string, i: nat)
    requires i < |rows| && rows[i].data.telephone == telephone
    ensures ClientByTelephone(rows, users, telephone).Ok?
    ensures var products := ClientByTelephone(rows, users, telephone).value.products;
            exists j :: 0 <= j < |products| && products[j].id == rows[i].id &&
                        products[j].amount == AmountValue(rows[i].data.amount)
  {
    var mine := WithTelephone(rows, telephone);
    var m :| 0 <= m < |mine| && mine[m] == rows[i];
    ClientViewEntries(rows, users, telephone, |mine| - 1 - m);
  }

  lemma {:induction false} DebtConcat(a: seq<Row<Client>>, b: seq<Row<Client>>)
    ensures Debt(a + b) == Debt(a) + Debt(b)
  {
    if a == [] {
      assert a + b == b;
    } else {
      assert (a + b)[1..] == a[1..] + b;
      DebtConcat(a[1..], b);
    }
  }

  /** The sum does not depend on the order the rows are listed in. */
  lemma {:induction false} DebtReverse(rows: seq<Row<Client>>)
    ensures Debt(Reverse(rows)) == Debt(rows)
  {
    if rows != [] {
      DebtReverse(rows[1..]);
      DebtConcat(Reverse(rows[1..]), [rows[0]]);
      assert Reverse(rows) == Reverse(rows[1..]) + [rows[0]];
      assert [rows[0]][1..] == [];
    }
  }

  /** `totalAmount` is the sum of the `amount`s the `products` list shows. */
  lemma {:induction false} DebtIsSumOfEntries(rows: seq<Row<Client>>, users: seq<Row<User>>)
    ensures Debt(rows) == SumOfEntries(Entries(rows, users))
  {
    if rows != [] {
      DebtIsSumOfEntries(rows[1..], users);
      assert Entries(rows, users)[1..] == Entries(rows[1..], users);
    }
  }

  /**
   * The update-balance UPDATE as written writes the new balance to every row of the telephone,
   * so that telephone's debt becomes the balance once per row.
   */
  lemma {:induction false} SetBalanceDebt(rows: seq<Row<Client>>, telephone: string, balance: int, updatedBy: nat)
    ensures Debt(WithTelephone(SetBalance(rows, telephone, balance, updatedBy), telephone))
            == |WithTelephone(rows, telephone)| * balance
  {
    if rows != [] {
      var head := rows[0];
      var rest := SetBalance(rows[1..], telephone, balance, updatedBy);
      var n := |WithTelephone(rows[1..], telephone)|;
      SetBalanceDebt(rows[1..], telephone, balance, updatedBy);
      assert Debt(WithTelephone(rest, telephone)) == n * balance;
      assert rows == [head] + rows[1..];
      WithTelephoneCons(head, rows[1..], telephone);
      if head.data.telephone == telephone {
        var written := head.(data := head.data.(amount := Num(balance), updatedBy := updatedBy));
        assert SetBalance(rows, telephone, balance, updatedBy) == [written] + rest;
        WithTelephoneCons(written, rest, telephone);
        var mine := WithTelephone(rest, telephone);
        assert ([written] + mine)[1..] == mine;
        assert Debt([written] + mine) == balance + n * balance;
        assert |WithTelephone(rows, telephone)| == n + 1;
        OneMoreTimes(n, balance);
        assert Debt(WithTelephone(SetBalance(rows, telephone, balance, updatedBy), telephone)) == (n + 1) * balance;
      } else {
        assert SetBalance(rows, telephone, balance, updatedBy) == [head] + rest;
        WithTelephoneCons(head, rest, telephone);
        assert WithTelephone([head] + rest, telephone) == WithTelephone(rest, telephone);
        assert WithTelephone(rows, telephone) == WithTelephone(rows[1..], telephone);
      }
    } else {
      assert WithTelephone(rows, telephone) == [];
      assert 0 * balance == 0;
    }
  }

  lemma OneMoreTimes(n: int, b: int)
    ensures (n + 1) * b == b + n * b
  {
  }

  lemma WithTelephoneCons(row: Row<Client>, rest: seq<Row<Client>>, telephone: string)
    ensures WithTelephone([row] + rest, telephone)
            == (if row.data.telephone == telephone then [row] else []) + WithTelephone(rest, telephone)
  {
    assert ([row] + rest)[1..] == rest;
  }

  /**
   * Two products of one client, at 1000 and 0, plus 500: update-balance answers a new balance of
   * 1500, but the client's debt becomes 3000 instead of 1500.
   */
  lemma SetBalanceOvercounts(first: Row<Client>, second: Row<Client>, updatedBy: nat)
    requires first.data.telephone == second.data.telephone
    requires first.data.amount == Num(1000) && second.data.amount == Num(0)
    ensures var telephone, rows := first.data.telephone, [first, second];
            && BalanceUpdate(rows, telephone, Num(500)).Ok?
            && BalanceUpdate(rows, telephone, Num(500)).value.newBalance == 1500
            && Debt(WithTelephone(rows, telephone)) + 500 == 1500
            && Debt(WithTelephone(SetBalance(rows, telephone, 1500, updatedBy), telephone)) == 3000
  {
    var telephone, rows := first.data.telephone, [first, second];
    assert rows[1..][1..] == [];
    assert WithTelephone(rows, telephone) == rows;
    assert Debt(rows) == 1000 by {
      assert Debt(rows[1..]) == 0 + Debt(rows[1..][1..]);
    }
    assert FirstWithTelephone(rows, telephone) == Some(first);
    SetBalanceDebt(rows, telephone, 1500, updatedBy);
  }

  /** Rewriting one row, whose telephone stays, changes that telephone's debt by the row's difference. */
  lemma ReplaceRowDebt(rows: seq<Row<Client>>, k: nat, data: Client)
    requires Ascending(rows) && k < |rows| && data.telephone == rows[k].data.telephone
    ensures Debt(WithTelephone(Replace(rows, rows[k].id, data), data.telephone))
            == Debt(WithTelephone(rows, data.telephone)) - AmountValue(rows[k].data.amount) + AmountValue(data.amount)
  {
    var telephone := data.telephone;
    var before, after := rows[..k], rows[k + 1..];
    var row := Row(rows[k].id, data);
    assert Replace(rows, rows[k].id, data) == before + ([row] + after) by {
      forall i | 0 <= i < |rows| && i != k ensures rows[i].id != rows[k].id {
        assert i < k || k < i;
      }
    }
    assert rows == before + ([rows[k]] + after);
    OneRowDebt(before, rows[k], after, telephone);
    OneRowDebt(before, row, after, telephone);
  }

  lemma OneRowDebt(before: seq<Row<Client>>, row: Row<Client>, after: seq<Row<Client>>, telephone: string)
    requires row.data.telephone == telephone
    ensures Debt(WithTelephone(before + ([row] + after), telephone))
            == Debt(WithTelephone(before, telephone)) + AmountValue(row.data.amount) + Debt(WithTelephone(after, telephone))
  {
    WithTelephoneConcat(before, [row] + after, telephone);
    WithTelephoneConcat([row], after, telephone);
    assert WithTelephone([row], telephone) == [row] by {
      assert [row][1..] == [];
    }
    DebtConcat(WithTelephone(before, telephone), [row] + WithTelephone(after, telephone));
    DebtConcat([row], WithTelephone(after, telephone));
    assert Debt([row]) == AmountValue(row.data.amount) by {
      assert [row][1..] == [];
    }
  }

  /** With the balance written to the row it read, the client's debt grows by exactly the added amount. */
  lemma SetReadRowBalanceDebt(rows: seq<Row<Client>>, telephone: string, additional: Amount, updatedBy: nat)
    requires Ascending(rows) && BalanceUpdate(rows, telephone, additional).Ok?
    ensures var reply := BalanceUpdate(rows, telephone, additional).value;
            Debt(WithTelephone(SetReadRowBalance(rows, reply.client, reply.newBalance, updatedBy), telephone))
            == Debt(WithTelephone(rows, telephone)) + additional.value
  {
    var first := FirstWithTelephone(rows, telephone).value;
    var reply := BalanceUpdate(rows, telephone, additional).value;
    var k :| 0 <= k < |rows| && rows[k] == first;
    ReplaceRowDebt(rows, k, reply.client.data.(amount := Num(reply.newBalance), updatedBy := updatedBy));
  }

  /** The debt of a table is the debt under one telephone plus the debt under all others. */
  lemma {:induction false} DebtSplitsByTelephone(rows: seq<Row<Client>>, telephone: string)
    ensures Debt(rows) == Debt(WithTelephone(rows, telephone)) + Debt(WithoutTelephone(rows, telephone))
  {
    if rows != [] {
      DebtSplitsByTelephone(rows[1..], telephone);
      var head := [rows[0]];
      assert head[1..] == [];
      if rows[0].data.telephone == telephone {
        assert WithTelephone(rows, telephone) == head + WithTelephone(rows[1..], telephone);
        assert WithoutTelephone(rows, telephone) == WithoutTelephone(rows[1..], telephone);
        DebtConcat(head, WithTelephone(rows[1..], telephone));
      } else {
        assert WithTelephone(rows, telephone) == WithTelephone(rows[1..], telephone);
        assert WithoutTelephone(rows, telephone) == head + WithoutTelephone(rows[1..], telephone);
        DebtConcat(head, WithoutTelephone(rows[1..], telephone));
      }
    }
  }

  /** `new Set(clients.map(client => client.telephone))` */
  function Telephones(rows: seq<Row<Client>>): (s: set<string>)
    ensures forall t :: t in s <==> exists i :: 0 <= i < |rows| && rows[i].data.telephone == t
  {
    if rows == [] then {}
    else
      var s := {rows[0].data.telephone} + Telephones(rows[1..]);
      assert forall i :: 1 <= i < |rows| ==> rows[i] == rows[1..][i - 1];
      s
  }

  /** Distinct telephones never outnumber rows. */
  lemma {:induction false} TelephonesBound(rows: seq<Row<Client>>)
    ensures |Telephones(rows)| <= |rows|
  {
    if rows != [] {
      TelephonesBound(rows[1..]);
      assert Telephones(rows) == {rows[0].data.telephone} + Telephones(rows[1..]);
    }
  }

  /** The response of GET /api/clients/stats. */
  datatype Stats = Stats(totalClients: nat, totalProducts: nat, totalDebt: int)

  function ClientStats(rows: seq<Row<Client>>): (s: Stats)
    ensures s.totalClients == |Telephones(rows)| && s.totalProducts == |rows| && s.totalDebt == Debt(rows)
    ensures s.totalClients <= s.totalProducts
    ensures s.totalClients == 0 <==> rows == []
  {
    TelephonesBound(rows);
    assert rows != [] ==> rows[0].data.telephone in Telephones(rows);
    Stats(|Telephones(rows)|, |rows|, Debt(rows))
  }

  /** Each distinct telephone counted as a client is one the client view answers for. */
  lemma ClientsAreTelephones(rows: seq<Row<Client>>, users: seq<Row<User>>, telephone: string)
    ensures telephone in Telephones(rows) <==> ClientByTelephone(rows, users, telephone).Ok?
  {
  }

  /** Deleting by telephone takes exactly that telephone out of the set of telephones. */
  lemma TelephonesWithout(rows: seq<Row<Client>>, telephone: string)
    ensures Telephones(WithoutTelephone(rows, telephone)) == Telephones(rows) - {telephone}
  {
    var kept := WithoutTelephone(rows, telephone);
    forall t ensures t in Telephones(kept) <==> t in Telephones(rows) - {telephone} {
      if t in Telephones(kept) {
        KeptTelephone(rows, telephone, t);
      }
      if t in Telephones(rows) && t != telephone {
        RemainingTelephone(rows, telephone, t);
      }
    }
  }

  lemma KeptTelephone(rows: seq<Row<Client>>, telephone: string, t: string)
    requires t in Telephones(WithoutTelephone(rows, telephone))
    ensures t in Telephones(rows) && t != telephone
  {
    var kept := WithoutTelephone(rows, telephone);
    var i :| 0 <= i < |kept| && kept[i].data.telephone == t;
    var k :| 0 <= k < |rows| && rows[k] == kept[i];
  }

  lemma RemainingTelephone(rows: seq<Row<Client>>, telephone: string, t: string)
    requires t in Telephones(rows) && t != telephone
    ensures t in Telephones(WithoutTelephone(rows, telephone))
  {
    var kept := WithoutTelephone(rows, telephone);
    var i :| 0 <= i < |rows| && rows[i].data.telephone == t;
    var k :| 0 <= k < |kept| && kept[k] == rows[i];
  }

  /**
   * Deleting a client by telephone takes exactly that client out of the statistics:
   * one client fewer, its products fewer, its total amount less debt.
   */
  lemma DeleteClientStats(rows: seq<Row<Client>>, users: seq<Row<User>>, telephone: string)
    requires ClientByTelephone(rows, users, telephone).Ok?
    ensures var view := ClientByTelephone(rows, users, telephone).value;
            var before := ClientStats(rows);
            var after := ClientStats(WithoutTelephone(rows, telephone));
            after == Stats(before.totalClients - 1, before.totalProducts - |view.products|, before.totalDebt - view.totalAmount)
  {
    var mine := WithTelephone(rows, telephone);
    var kept := WithoutTelephone(rows, telephone);
    var view := ClientByTelephone(rows, users, telephone).value;
    assert |view.products| == |mine| && view.totalAmount == Debt(mine);
    DebtSplitsByTelephone(rows, telephone);
    assert ClientStats(kept).totalDebt == ClientStats(rows).totalDebt - view.totalAmount;
    assert ClientStats(kept).totalProducts == ClientStats(rows).totalProducts - |view.products|;
    assert telephone in Telephones(rows);
    TelephonesWithout(rows, telephone);
    assert ClientStats(kept).totalClients == ClientStats(rows).totalClients - 1;
  }
}
