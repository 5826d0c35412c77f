/**
 * The checkout rules of `cart_checkout`, as functions of the inventory,
 * the session cart and the customer id: normalisation, the inventory
 * snapshot, validation, the stock decrements and the purchase records.
 * The class that applies them to mutable state is in module Shop.
 */
module Checkout {
  import opened Wrappers
  import opened PyText
  import opened CartStore

  /** A row of the Artifact table as checkout reads it; price in cents. */
  datatype Artifact = Artifact(title: string, stock: int, price: int)

  /** A row inserted into the Purchase table. */
  datatype Purchase = Purchase(customer: int, artifact: int, quantity: int, total: int, payment: string)

  /** One line of the "Checkout failed" message. */
  datatype Problem =
    | NoLongerExists(key: string)                              // "Artifact ID <key> no longer exists."
    | OnlyLeft(title: string, stock: int, requested: int)      // "<title> has only <stock> left (you requested <n>)."

  /** How one checkout request ends. */
  datatype Outcome =
    | EmptyCart                          // "Your cart is empty."
    | BadCartKey(key: string)            // `int(key)` raises before the database is touched
    | Rejected(problems: seq<Problem>)   // "Checkout failed: ..."
    | MissingCustomer                    // RuntimeError("Missing customer session.")
    | Completed                          // "Purchase successful!"

  /** The payment method written on every purchase. */
  const PaymentMethod: string := "Card"

  /** `if not customer_id`: both a missing id and the id 0 are refused. */
  predicate HasCustomer(customer: Option<int>) {
    customer.Some? && customer.value != 0
  }

  // ---------------------------------------------------------------------
  // Normalisation
  // ---------------------------------------------------------------------

  /** `{aid: qty for aid, qty in cart.items() if qty > 0}`, order kept. */
  function Normalize(cart: seq<Entry>): (r: seq<Entry>)
    ensures |r| <= |cart|
    ensures forall e :: e in r <==> e in cart && e.qty > 0
    ensures UniqueKeys(cart) ==> UniqueKeys(r)
  {
    if cart == [] then []
    else
      var rest := Normalize(cart[1..]);
      assert forall e :: e in cart[1..] ==> e in cart;
      if cart[0].qty > 0 then
        assert UniqueKeys(cart) ==> forall e :: e in rest ==> e.key != cart[0].key;
        [cart[0]] + rest
      else rest
  }

  /** Normalising a cart normalises each part of it in place. */
  lemma {:induction false} NormalizeAppend(a: seq<Entry>, b: seq<Entry>)
    ensures Normalize(a + b) == Normalize(a) + Normalize(b)
  {
    if a != [] {
      assert (a + b)[1..] == a[1..] + b;
      NormalizeAppend(a[1..], b);
    } else {
      assert a + b == b;
    }
  }

  /** A cart built by `cart_add` and `cart_update` normalises to itself. */
  lemma {:induction false} NormalizePositive(c: seq<Entry>)
    requires AllPositive(c)
    ensures Normalize(c) == c
  {
    if c != [] {
      NormalizePositive(c[1..]);
    }
  }

  // ---------------------------------------------------------------------
  // Artifact ids and the snapshot
  // ---------------------------------------------------------------------

  /** Entry `i` is the first whose key `int()` rejects. */
  predicate FirstBadAt(c: seq<Entry>, i: nat) {
    i < |c| && ParseInt(c[i].key).None? && forall j :: 0 <= j < i ==> ParseInt(c[j].key).Some?
  }

  /** The first cart key that `int()` rejects, if any. */
  function FirstUnparsable(c: seq<Entry>): (r: Option<string>)
    ensures r.None? <==> forall i :: 0 <= i < |c| ==> ParseInt(c[i].key).Some?
    ensures r.Some? ==> exists i: nat :: FirstBadAt(c, i) && c[i].key == r.value
  {
    if c == [] then None
    else if ParseInt(c[0].key).None? then
      assert FirstBadAt(c, 0);
      Some(c[0].key)
    else
      var r := FirstUnparsable(c[1..]);
      assert r.Some? ==> exists i: nat :: FirstBadAt(c, i) && c[i].key == r.value by {
        if r.Some? {
          var i: nat :| FirstBadAt(c[1..], i) && c[1..][i].key == r.value;
          FirstBadShift(c, i);
        }
      }
      assert r.None? ==> forall i :: 0 <= i < |c| ==> ParseInt(c[i].key).Some? by {
        assert forall i :: 1 <= i < |c| ==> c[i] == c[1..][i - 1];
      }
      r
  }

  /** A first failure in the rest, behind a key that parses, is the first
      failure of the whole cart. */
  lemma FirstBadShift(c: seq<Entry>, i: nat)
    requires c != [] && ParseInt(c[0].key).Some? && FirstBadAt(c[1..], i)
    ensures FirstBadAt(c, i + 1) && c[i + 1] == c[1..][i]
  {
    assert forall j :: 1 <= j < i + 1 ==> c[j] == c[1..][j - 1];
  }

  /** `[int(k) for k in cart]` as the id set of the locking read. */
  function CartIds(c: seq<Entry>): (ids: set<int>)
    requires forall i :: 0 <= i < |c| ==> ParseInt(c[i].key).Some?
    ensures forall i :: 0 <= i < |c| ==> ParseInt(c[i].key).value in ids
  {
    set i | 0 <= i < |c| :: ParseInt(c[i].key).value
  }

  /** `[int(k) for k in ids]`: the ids fetched are exactly the parsed keys. */
  lemma CartIdsExactly(c: seq<Entry>, id: int)
    requires forall i :: 0 <= i < |c| ==> ParseInt(c[i].key).Some?
    ensures id in CartIds(c) <==> exists i :: 0 <= i < |c| && ParseInt(c[i].key).value == id
  {
  }

  /** The rows fetched for `ids`, keyed by `str(Artifact_ID)`. */
  function Snapshot(inv: map<int, Artifact>, ids: set<int>): (snap: map<string, Artifact>)
    ensures forall id :: id in ids && id in inv ==> IntToString(id) in snap && snap[IntToString(id)] == inv[id]
    ensures forall k :: k in snap ==> ParseInt(k).Some? && ParseInt(k).value in ids
                                      && ParseInt(k).value in inv && k == IntToString(ParseInt(k).value)
  {
    IntToStringInjective();
    var snap := map id | id in ids && id in inv :: IntToString(id) := inv[id];
    assert forall k :: k in snap ==> ParseInt(k).Some? && ParseInt(k).value in ids
                                     && ParseInt(k).value in inv && k == IntToString(ParseInt(k).value) by {
      forall k | k in snap
        ensures ParseInt(k).Some? && ParseInt(k).value in ids && ParseInt(k).value in inv
                && k == IntToString(ParseInt(k).value)
      {
        var id :| id in ids && id in inv && k == IntToString(id);
        ParseIntToString(id);
      }
    }
    snap
  }

  /**
   * `snapshot.get(k)` for a cart key that parses to a requested id: the
   * row is found exactly when `k` is the canonical spelling `str(id)` of
   * an id that exists.
   */
  lemma SnapshotLookup(inv: map<int, Artifact>, ids: set<int>, k: string, id: int)
    requires ParseInt(k) == Some(id) && id in ids
    ensures k in Snapshot(inv, ids) <==> k == IntToString(id) && id in inv
    ensures k in Snapshot(inv, ids) ==> Snapshot(inv, ids)[k] == inv[id]
  {
  }

  // ---------------------------------------------------------------------
  // Validation
  // ---------------------------------------------------------------------

  /** The problem one cart entry raises against the snapshot, if any. */
  function EntryProblems(e: Entry, snap: map<string, Artifact>): (ps: seq<Problem>)
    ensures |ps| <= 1
    ensures ps == [] <==> e.key in snap && e.qty <= snap[e.key].stock
  {
    if e.key !in snap then [NoLongerExists(e.key)]
    else if e.qty > snap[e.key].stock then [OnlyLeft(snap[e.key].title, snap[e.key].stock, e.qty)]
    else []
  }

  /** Validation over the whole cart, in cart order. */
  function ProblemsOf(c: seq<Entry>, snap: map<string, Artifact>): (ps: seq<Problem>)
    ensures |ps| <= |c|
  {
    if c == [] then [] else EntryProblems(c[0], snap) + ProblemsOf(c[1..], snap)
  }

  /** Validation never stops early: the problems of a cart are those of its
      first part followed by those of the rest. */
  lemma {:induction false} ProblemsOfAppend(a: seq<Entry>, b: seq<Entry>, snap: map<string, Artifact>)
    ensures ProblemsOf(a + b, snap) == ProblemsOf(a, snap) + ProblemsOf(b, snap)
  {
    if a == [] {
      assert a + b == b;
    } else {
      assert (a + b)[1..] == a[1..] + b;
      ProblemsOfAppend(a[1..], b, snap);
    }
  }

  /** Every entry contributes its own problem, at its own place. */
  lemma ProblemsAt(c: seq<Entry>, i: nat, snap: map<string, Artifact>)
    requires i < |c|
    ensures ProblemsOf(c, snap) == ProblemsOf(c[..i], snap) + EntryProblems(c[i], snap) + ProblemsOf(c[i + 1..], snap)
  {
    assert c == c[..i] + ([c[i]] + c[i + 1..]);
    ProblemsOfAppend(c[..i], [c[i]] + c[i + 1..], snap);
    ProblemsOfAppend([c[i]], c[i + 1..], snap);
  }

  /** No problem at all exactly when every entry is found and asks for no
      more than its stock (asking for the whole stock is fine). */
  lemma {:induction false} NoProblemsIff(c: seq<Entry>, snap: map<string, Artifact>)
    ensures ProblemsOf(c, snap) == [] <==>
            forall i :: 0 <= i < |c| ==> c[i].key in snap && c[i].qty <= snap[c[i].key].stock
  {
    if c != [] {
      NoProblemsIff(c[1..], snap);
      assert forall i :: 1 <= i < |c| ==> c[i] == c[1..][i - 1];
    }
  }

  /** The validation loop of `cart_checkout`. */
  method Validate(c: seq<Entry>, snap: map<string, Artifact>) returns (problems: seq<Problem>)
    ensures problems == ProblemsOf(c, snap)
  {
    problems := [];
    var i := 0;
    while i < |c|
      invariant 0 <= i <= |c|
      invariant problems == ProblemsOf(c[..i], snap)
    {
      var e := c[i];
      if e.key !in snap {
        problems := problems + [NoLongerExists(e.key)];
      } else if e.qty > snap[e.key].stock {
        problems := problems + [OnlyLeft(snap[e.key].title, snap[e.key].stock, e.qty)];
      }
      assert c[..i + 1] == c[..i] + [e];
      ProblemsOfAppend(c[..i], [e], snap);
      i := i + 1;
    }
    assert c[..i] == c;
  }

  // ---------------------------------------------------------------------
  // The decision
  // ---------------------------------------------------------------------

  /** How `cart_checkout` ends for this inventory, cart and customer. */
  function Decide(inv: map<int, Artifact>, cart: seq<Entry>, customer: Option<int>): (r: Outcome)
    ensures r == EmptyCart <==> Normalize(cart) == []
    ensures r.BadCartKey? ==> ParseInt(r.key).None? && exists e :: e in cart && e.qty > 0 && e.key == r.key
    ensures r.Rejected? ==> r.problems != []
    ensures r == Completed ==> HasCustomer(customer)
  {
    var norm := Normalize(cart);
    if norm == [] then EmptyCart
    else match FirstUnparsable(norm)
      case Some(k) => BadCartKey(k)
      case None =>
        var problems := ProblemsOf(norm, Snapshot(inv, CartIds(norm)));
        if problems != [] then Rejected(problems)
        else if !HasCustomer(customer) then MissingCustomer
        else Completed
  }

  /** The key is `str(id)` of an artifact that exists and has at least
      `e.qty` in stock. */
  predicate Stocked(inv: map<int, Artifact>, e: Entry) {
    match ParseInt(e.key)
    case None => false
    case Some(id) => e.key == IntToString(id) && id in inv && e.qty <= inv[id].stock
  }

  /** The problem an entry raises, stated against the inventory itself. */
  function InventoryProblems(e: Entry, inv: map<int, Artifact>): (ps: seq<Problem>)
    requires ParseInt(e.key).Some?
  {
    var id := ParseInt(e.key).value;
    if e.key != IntToString(id) || id !in inv then [NoLongerExists(e.key)]
    else if e.qty > inv[id].stock then [OnlyLeft(inv[id].title, inv[id].stock, e.qty)]
    else []
  }

  /** Validating against the snapshot is validating against the inventory. */
  lemma {:induction false} SnapshotProblems(c: seq<Entry>, inv: map<int, Artifact>, ids: set<int>, i: nat)
    requires i <= |c|
    requires forall j :: 0 <= j < |c| ==> ParseInt(c[j].key).Some? && ParseInt(c[j].key).value in ids
    ensures ProblemsOf(c[i..], Snapshot(inv, ids)) == InventoryProblemsOf(c[i..], inv)
    decreases |c| - i
  {
    if i < |c| {
      SnapshotProblems(c, inv, ids, i + 1);
      SnapshotLookup(inv, ids, c[i].key, ParseInt(c[i].key).value);
      assert c[i..][1..] == c[i + 1..];
    }
  }

  function InventoryProblemsOf(c: seq<Entry>, inv: map<int, Artifact>): (ps: seq<Problem>)
    requires forall j :: 0 <= j < |c| ==> ParseInt(c[j].key).Some?
  {
    if c == [] then [] else InventoryProblems(c[0], inv) + InventoryProblemsOf(c[1..], inv)
  }

  /**
   * A checkout that gets past the empty-cart and key checks is rejected
   * with exactly the problems of the normalised cart against the
   * inventory, all of them, in cart order.
   */
  lemma CheckoutProblems(inv: map<int, Artifact>, cart: seq<Entry>, customer: Option<int>)
    requires Normalize(cart) != [] && FirstUnparsable(Normalize(cart)).None?
    ensures var ps := InventoryProblemsOf(Normalize(cart), inv);
            Decide(inv, cart, customer) == (if ps != [] then Rejected(ps)
                                            else if !HasCustomer(customer) then MissingCustomer
                                            else Completed)
  {
    var norm := Normalize(cart);
    SnapshotProblems(norm, inv, CartIds(norm), 0);
    assert norm[0..] == norm;
  }

  /**
   * Checkout succeeds exactly when the normalised cart is not empty, a
   * customer is signed in, and every entry names an existing artifact
   * by its id and asks for no more than its stock.
   */
  lemma CheckoutSucceedsIff(inv: map<int, Artifact>, cart: seq<Entry>, customer: Option<int>)
    ensures Decide(inv, cart, customer) == Completed <==>
            Normalize(cart) != [] && HasCustomer(customer)
            && forall i :: 0 <= i < |Normalize(cart)| ==> Stocked(inv, Normalize(cart)[i])
  {
    var norm := Normalize(cart);
    if norm != [] {
      if FirstUnparsable(norm).None? {
        ValidIffStocked(inv, norm);
      } else {
        var i :| 0 <= i < |norm| && ParseInt(norm[i].key).None?;
        assert !Stocked(inv, norm[i]);
      }
    }
  }

  /** For a cart whose keys all parse, validation finds no problem exactly
      when every entry is `Stocked`. */
  lemma ValidIffStocked(inv: map<int, Artifact>, c: seq<Entry>)
    requires FirstUnparsable(c).None?
    ensures ProblemsOf(c, Snapshot(inv, CartIds(c))) == [] <==> forall i :: 0 <= i < |c| ==> Stocked(inv, c[i])
  {
    var ids := CartIds(c);
    var snap := Snapshot(inv, ids);
    NoProblemsIff(c, snap);
    forall i | 0 <= i < |c|
      ensures (c[i].key in snap && c[i].qty <= snap[c[i].key].stock) <==> Stocked(inv, c[i])
    {
      EntryStocked(inv, ids, c[i]);
    }
  }

  /** An entry passes validation exactly when it is `Stocked`. */
  lemma EntryStocked(inv: map<int, Artifact>, ids: set<int>, e: Entry)
    requires ParseInt(e.key).Some? && ParseInt(e.key).value in ids
    ensures (e.key in Snapshot(inv, ids) && e.qty <= Snapshot(inv, ids)[e.key].stock) <==> Stocked(inv, e)
  {
    SnapshotLookup(inv, ids, e.key, ParseInt(e.key).value);
  }

  /** Checking out an emptied cart reports an empty cart. */
  lemma EmptyCartIdempotent(inv: map<int, Artifact>, customer: Option<int>)
    ensures Decide(inv, [], customer) == EmptyCart
  {
  }

  // ---------------------------------------------------------------------
  // Effects of a completed checkout
  // ---------------------------------------------------------------------

  /** `UPDATE Artifact SET Quantity = Quantity - q WHERE Artifact_ID = id`. */
  function StockUpdate(inv: map<int, Artifact>, id: int, q: int): (r: map<int, Artifact>)
    ensures r.Keys == inv.Keys
  {
    if id in inv then inv[id := inv[id].(stock := inv[id].stock - q)] else inv
  }

  /** The stock updates of the purchase loop, in cart order. */
  function Decremented(inv: map<int, Artifact>, c: seq<Entry>): (r: map<int, Artifact>)
    ensures r.Keys == inv.Keys
  {
    if c == [] then inv
    else
      var next := match ParseInt(c[0].key)
                  case Some(id) => StockUpdate(inv, id, c[0].qty)
                  case None => inv;
      Decremented(next, c[1..])
  }

  /** The stock updates from position `i` on are the update for entry `i`
      followed by those from `i + 1` on. */
  lemma DecrementedStep(inv: map<int, Artifact>, c: seq<Entry>, i: nat)
    requires i < |c| && ParseInt(c[i].key).Some?
    ensures Decremented(inv, c[i..]) == Decremented(StockUpdate(inv, ParseInt(c[i].key).value, c[i].qty), c[i + 1..])
  {
    assert c[i..][0] == c[i] && c[i..][1..] == c[i + 1..];
  }

  /** Total quantity the cart asks for of artifact `id`. */
  function Requested(c: seq<Entry>, id: int): (n: int) {
    if c == [] then 0
    else (if ParseInt(c[0].key) == Some(id) then c[0].qty else 0) + Requested(c[1..], id)
  }

  /** Each artifact's stock goes down by exactly what the cart asks for;
      titles, prices and the set of artifacts stay as they were. */
  lemma {:induction false} DecrementedStock(inv: map<int, Artifact>, c: seq<Entry>, id: int)
    ensures Decremented(inv, c).Keys == inv.Keys
    ensures id in inv ==> Decremented(inv, c)[id] == inv[id].(stock := inv[id].stock - Requested(c, id))
  {
    if c != [] {
      var next := match ParseInt(c[0].key)
                  case Some(x) => StockUpdate(inv, x, c[0].qty)
                  case None => inv;
      DecrementedStock(next, c[1..], id);
    }
  }

  /** Every key is `str` of the id it parses to. */
  predicate CanonicalKeys(c: seq<Entry>) {
    forall i :: 0 <= i < |c| ==> ParseInt(c[i].key).Some? && c[i].key == IntToString(ParseInt(c[i].key).value)
  }

  /** With distinct canonical keys, the cart asks for artifact `id` only
      through the entry keyed `str(id)`. */
  lemma {:induction false} RequestedIsEntry(c: seq<Entry>, id: int)
    requires UniqueKeys(c) && CanonicalKeys(c)
    ensures Requested(c, id) == FindOrZero(c, IntToString(id))
  {
    if c != [] {
      var k := IntToString(id);
      var rest := c[1..];
      CanonicalTail(c);
      RequestedIsEntry(rest, id);
      FindCons(c, k);
      CanonicalHead(c, id);
      assert Requested(c, id) == (if c[0].key == k then c[0].qty else 0) + FindOrZero(rest, k);
    }
  }

  /** The rest of a cart with distinct canonical keys has them too, and
      does not hold the first key again. */
  lemma CanonicalTail(c: seq<Entry>)
    requires c != [] && UniqueKeys(c) && CanonicalKeys(c)
    ensures UniqueKeys(c[1..]) && CanonicalKeys(c[1..])
    ensures Find(c[1..], c[0].key) == None
  {
    var rest := c[1..];
    assert forall i :: 0 <= i < |rest| ==> rest[i] == c[i + 1];
  }

  /** A canonical key parses to `id` exactly when it is `str(id)`. */
  lemma CanonicalHead(c: seq<Entry>, id: int)
    requires c != [] && CanonicalKeys(c)
    ensures (ParseInt(c[0].key) == Some(id)) == (c[0].key == IntToString(id))
  {
    ParseIntToString(id);
  }

  /** Units of artifact `id` in a list of purchase records. */
  function UnitsSold(ledger: seq<Purchase>, id: int): (n: int) {
    if ledger == [] then 0
    else (if ledger[0].artifact == id then ledger[0].quantity else 0) + UnitsSold(ledger[1..], id)
  }

  lemma {:induction false} UnitsSoldAppend(a: seq<Purchase>, b: seq<Purchase>, id: int)
    ensures UnitsSold(a + b, id) == UnitsSold(a, id) + UnitsSold(b, id)
  {
    if a == [] {
      assert a + b == b;
    } else {
      assert (a + b)[1..] == a[1..] + b;
      UnitsSoldAppend(a[1..], b, id);
    }
  }

  /** Every key is in the snapshot and parses. */
  predicate Priced(c: seq<Entry>, snap: map<string, Artifact>) {
    forall i :: 0 <= i < |c| ==> c[i].key in snap && ParseInt(c[i].key).Some?
  }

  /** The purchase record the loop inserts for one entry. */
  function LineItem(customer: int, snap: map<string, Artifact>, e: Entry): (r: Purchase)
    requires e.key in snap && ParseInt(e.key).Some?
  {
    Purchase(customer, ParseInt(e.key).value, e.qty, snap[e.key].price * e.qty, PaymentMethod)
  }

  /** The records the purchase loop inserts: one per entry, in cart order. */
  function Records(customer: int, snap: map<string, Artifact>, c: seq<Entry>): (r: seq<Purchase>)
    requires Priced(c, snap)
    ensures |r| == |c|
    ensures forall i :: 0 <= i < |c| ==> r[i] == LineItem(customer, snap, c[i])
  {
    if c == [] then []
    else
      var rest := Records(customer, snap, c[1..]);
      assert forall i :: 1 <= i < |c| ==> c[i] == c[1..][i - 1];
      [LineItem(customer, snap, c[0])] + rest
  }

  /** Record `i` is for the customer, the parsed id and the quantity of
      entry `i`, totals its price times its quantity, and is paid by card. */
  lemma RecordFields(customer: int, snap: map<string, Artifact>, c: seq<Entry>, i: nat)
    requires Priced(c, snap) && i < |c|
    ensures var r := Records(customer, snap, c)[i];
            && r.customer == customer && r.artifact == ParseInt(c[i].key).value
            && r.quantity == c[i].qty && r.total == snap[c[i].key].price * c[i].qty
            && r.payment == PaymentMethod
  {
  }

  /** The records of a cart extended by one entry end with that entry's. */
  lemma RecordsSnoc(customer: int, snap: map<string, Artifact>, c: seq<Entry>, e: Entry)
    requires Priced(c, snap) && e.key in snap && ParseInt(e.key).Some?
    ensures Priced(c + [e], snap)
    ensures Records(customer, snap, c + [e]) == Records(customer, snap, c) + [LineItem(customer, snap, e)]
  {
    var ce := c + [e];
    assert Priced(ce, snap) by {
      forall i | 0 <= i < |ce|
        ensures ce[i].key in snap && ParseInt(ce[i].key).Some?
      {
        if i < |c| { assert ce[i] == c[i]; }
      }
    }
    var a := Records(customer, snap, ce);
    var b := Records(customer, snap, c) + [LineItem(customer, snap, e)];
    forall i | 0 <= i < |a|
      ensures a[i] == b[i]
    {
      if i < |c| { assert ce[i] == c[i]; }
    }
  }

  /** The units recorded for an artifact are the units the cart asked for. */
  lemma {:induction false} RecordsConserve(customer: int, snap: map<string, Artifact>, c: seq<Entry>, id: int)
    requires Priced(c, snap)
    ensures UnitsSold(Records(customer, snap, c), id) == Requested(c, id)
  {
    if c != [] {
      var r := Records(customer, snap, c);
      assert Priced(c[1..], snap) by {
        assert forall i :: 0 <= i < |c[1..]| ==> c[1..][i] == c[i + 1];
      }
      RecordsConserve(customer, snap, c[1..], id);
      assert r[1..] == Records(customer, snap, c[1..]);
    }
  }

  /**
   * The state a completed checkout leaves, from the inventory, cart and
   * ledger it started with: there is a customer, the normalised cart is
   * priced by its snapshot, every entry's stock is decremented and one
   * record per entry is appended to the ledger.
   */
  ghost predicate Purchased(inv0: map<int, Artifact>, cart0: seq<Entry>, ledger0: seq<Purchase>, customer: Option<int>,
                            inv: map<int, Artifact>, ledger: seq<Purchase>)
  {
    var norm := Normalize(cart0);
    && HasCustomer(customer)
    && FirstUnparsable(norm).None?
    && Priced(norm, Snapshot(inv0, CartIds(norm)))
    && inv == Decremented(inv0, norm)
    && ledger == ledger0 + Records(customer.value, Snapshot(inv0, CartIds(norm)), norm)
  }

  /** The purchase loop run over the normalised cart and its snapshot
      reaches the state `Purchased` describes. */
  lemma PurchasedIntro(inv0: map<int, Artifact>, cart0: seq<Entry>, ledger0: seq<Purchase>, customer: Option<int>,
                       norm: seq<Entry>, snap: map<string, Artifact>, inv: map<int, Artifact>, ledger: seq<Purchase>)
    requires norm == Normalize(cart0) && HasCustomer(customer) && FirstUnparsable(norm).None?
    requires snap == Snapshot(inv0, CartIds(norm)) && Priced(norm, snap)
    requires inv == Decremented(inv0, norm) && ledger == ledger0 + Records(customer.value, snap, norm)
    ensures Purchased(inv0, cart0, ledger0, customer, inv, ledger)
  {
  }

  /** What a completed checkout knows about the normalised cart. */
  lemma CompletedCart(inv: map<int, Artifact>, cart: seq<Entry>, customer: Option<int>)
    requires UniqueKeys(cart)
    requires Decide(inv, cart, customer) == Completed
    ensures FirstUnparsable(Normalize(cart)).None?
    ensures UniqueKeys(Normalize(cart)) && CanonicalKeys(Normalize(cart))
    ensures Priced(Normalize(cart), Snapshot(inv, CartIds(Normalize(cart))))
    ensures forall i :: 0 <= i < |Normalize(cart)| ==> Stocked(inv, Normalize(cart)[i])
    ensures HasCustomer(customer)
  {
    var norm := Normalize(cart);
    var snap := Snapshot(inv, CartIds(norm));
    NoProblemsIff(norm, snap);
    CheckoutSucceedsIff(inv, cart, customer);
  }

  /**
   * The inventory after a completed checkout: every artifact keeps its
   * title and price; one in the cart has its stock reduced by exactly the
   * requested quantity and not below zero, the others are untouched.
   */
  lemma CheckoutStock(inv: map<int, Artifact>, cart: seq<Entry>, customer: Option<int>, id: int)
    requires UniqueKeys(cart)
    requires Decide(inv, cart, customer) == Completed
    requires id in inv
    ensures Decremented(inv, Normalize(cart)).Keys == inv.Keys
    ensures Decremented(inv, Normalize(cart))[id]
            == inv[id].(stock := inv[id].stock - FindOrZero(Normalize(cart), IntToString(id)))
    ensures Find(Normalize(cart), IntToString(id)).Some? ==> Decremented(inv, Normalize(cart))[id].stock >= 0
  {
    var norm := Normalize(cart);
    CompletedCart(inv, cart, customer);
    DecrementedStock(inv, norm, id);
    RequestedIsEntry(norm, id);
    var k := IntToString(id);
    if Find(norm, k).Some? {
      var i :| 0 <= i < |norm| && norm[i] == Entry(k, Find(norm, k).value);
      ParseIntToString(id);
      assert Stocked(inv, norm[i]);
    }
  }

  /**
   * The records of a completed checkout: one per cart entry, and the
   * units recorded for each artifact equal the fall in its stock.
   */
  lemma CheckoutConserves(inv: map<int, Artifact>, cart: seq<Entry>, cid: int, id: int)
    requires UniqueKeys(cart)
    requires Decide(inv, cart, Some(cid)) == Completed
    requires id in inv
    ensures Priced(Normalize(cart), Snapshot(inv, CartIds(Normalize(cart))))
    ensures |Records(cid, Snapshot(inv, CartIds(Normalize(cart))), Normalize(cart))| == |Normalize(cart)|
    ensures Decremented(inv, Normalize(cart)).Keys == inv.Keys
    ensures inv[id].stock - Decremented(inv, Normalize(cart))[id].stock
            == UnitsSold(Records(cid, Snapshot(inv, CartIds(Normalize(cart))), Normalize(cart)), id)
  {
    var norm := Normalize(cart);
    CompletedCart(inv, cart, Some(cid));
    DecrementedStock(inv, norm, id);
    RecordsConserve(cid, Snapshot(inv, CartIds(norm)), norm, id);
  }

  // ---------------------------------------------------------------------
  // Worked examples: one artifact, id 42, five in stock at 1000 cents
  // ---------------------------------------------------------------------

  /** `str(42)` is `"42"`, and `int("42")` is 42. */
  lemma Key42()
    ensures IntToString(42) == "42" && ParseInt("42") == Some(42)
  {
    assert NatToString(42) == NatToString(4) + [DigitChar(2)];
    ParseIntToString(42);
  }

  /** The rows fetched for the id set `{42}` hold artifact 42 under `"42"`. */
  lemma Snapshot42(inv: map<int, Artifact>)
    requires 42 in inv
    ensures "42" in Snapshot(inv, {42}) && Snapshot(inv, {42})["42"] == inv[42]
  {
    Key42();
  }

  /** The cart `{"42": qty}`: it parses, and its id set is `{42}`. */
  lemma OneEntryCart(qty: int)
    requires qty > 0
    ensures Normalize([Entry("42", qty)]) == [Entry("42", qty)]
    ensures FirstUnparsable([Entry("42", qty)]).None?
    ensures CartIds([Entry("42", qty)]) == {42}
  {
    Key42();
    NormalizePositive([Entry("42", qty)]);
  }

  /** A one-entry cart for the artifact with five in stock completes
      exactly when it asks for at most five, and is refused otherwise. */
  lemma DecideOneEntry(qty: int)
    requires qty > 0
    ensures Decide(map[42 := Artifact("Vase", 5, 1000)], [Entry("42", qty)], Some(7))
            == if qty <= 5 then Completed else Rejected([OnlyLeft("Vase", 5, qty)])
  {
    var inv := map[42 := Artifact("Vase", 5, 1000)];
    var cart := [Entry("42", qty)];
    OneEntryCart(qty);
    Snapshot42(inv);
    var snap := Snapshot(inv, {42});
    assert cart[1..] == [];
    assert ProblemsOf(cart, snap) == EntryProblems(cart[0], snap) + ProblemsOf(cart[1..], snap);
  }

  /** Three of five: the checkout completes, stock falls to 2 and one
      purchase of 3 at a total of 3000 is recorded. */
  lemma CompletedExample()
    ensures var inv := map[42 := Artifact("Vase", 5, 1000)];
            var cart := [Entry("42", 3)];
            && Decide(inv, cart, Some(7)) == Completed
            && Decremented(inv, Normalize(cart)) == map[42 := Artifact("Vase", 2, 1000)]
            && Priced(Normalize(cart), Snapshot(inv, CartIds(Normalize(cart))))
            && Records(7, Snapshot(inv, CartIds(Normalize(cart))), Normalize(cart))
               == [Purchase(7, 42, 3, 3000, PaymentMethod)]
  {
    DecideOneEntry(3);
    ExampleStock();
    ExampleRecords();
  }

  /** The stock update of the three-of-five checkout. */
  lemma ExampleStock()
    ensures Decremented(map[42 := Artifact("Vase", 5, 1000)], Normalize([Entry("42", 3)]))
            == map[42 := Artifact("Vase", 2, 1000)]
  {
    var inv := map[42 := Artifact("Vase", 5, 1000)];
    var cart := [Entry("42", 3)];
    OneEntryCart(3);
    Key42();
    DecrementedStep(inv, cart, 0);
    assert cart[1..] == [];
  }

  /** The purchase record of the three-of-five checkout. */
  lemma ExampleRecords()
    ensures var inv := map[42 := Artifact("Vase", 5, 1000)];
            var cart := [Entry("42", 3)];
            && Priced(Normalize(cart), Snapshot(inv, CartIds(Normalize(cart))))
            && Records(7, Snapshot(inv, CartIds(Normalize(cart))), Normalize(cart))
               == [Purchase(7, 42, 3, 3000, PaymentMethod)]
  {
    var inv := map[42 := Artifact("Vase", 5, 1000)];
    var cart := [Entry("42", 3)];
    OneEntryCart(3);
    Key42();
    Snapshot42(inv);
    var snap := Snapshot(inv, {42});
    assert Priced(cart, snap);
    var r := Records(7, snap, cart);
    assert r[0] == LineItem(7, snap, cart[0]);
    assert snap["42"].price == 1000;
    assert LineItem(7, snap, cart[0]) == Purchase(7, 42, 3, 3000, PaymentMethod);
    assert r == [r[0]];
  }

  /** Ten of five: the checkout is refused with one problem. */
  lemma RejectedExample()
    ensures Decide(map[42 := Artifact("Vase", 5, 1000)], [Entry("42", 10)], Some(7))
            == Rejected([OnlyLeft("Vase", 5, 10)])
  {
    DecideOneEntry(10);
  }
}
