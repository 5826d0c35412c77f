/**
 * The customer-facing state that `cart_add`, `cart_update` and
 * `cart_checkout` change: the Artifact table (id -> row), the Purchase
 * table, and the session cart. Each handler is a method that updates
 * these fields as the handler updates the database and the session.
 */
module Shop {
  import opened Wrappers
  import opened PyText
  import opened CartStore
  import opened Checkout

  class Store {
    var inventory: map<int, Artifact>
    var ledger: seq<Purchase>
    var cart: seq<Entry>

    /** The session cart is a dict, so its keys are distinct, and
        `cart_add` and `cart_update` only ever store positive quantities. */
    ghost predicate Valid()
      reads this
    {
      UniqueKeys(cart) && AllPositive(cart)
    }

    /** A new session starts with an empty cart. */
    constructor (inventory0: map<int, Artifact>, ledger0: seq<Purchase>)
      ensures Valid()
      ensures inventory == inventory0 && ledger == ledger0 && cart == []
    {
      inventory := inventory0;
      ledger := ledger0;
      cart := [];
    }

    /**
     * `cart_add(artifact_id)`: adds `max(1, qty)` to the entry for
     * `str(artifact_id)`, creating it at the end if it is new. A `qty`
     * field that `int()` rejects raises before the cart is touched.
     */
    method CartAdd(artifactId: nat, qtyField: Option<string>) returns (ok: bool)
      requires Valid()
      modifies this
      ensures Valid()
      ensures inventory == old(inventory) && ledger == old(ledger)
      ensures ok <==> AddQuantity(qtyField).Some?
      ensures !ok ==> cart == old(cart)
      ensures ok ==> cart == Put(old(cart), IntToString(artifactId),
                                 FindOrZero(old(cart), IntToString(artifactId)) + AddQuantity(qtyField).value)
      ensures ok ==> Find(cart, IntToString(artifactId))
                     == Some(FindOrZero(old(cart), IntToString(artifactId)) + AddQuantity(qtyField).value)
      ensures forall k :: k != IntToString(artifactId) ==> Find(cart, k) == Find(old(cart), k)
      ensures AllPositive(old(cart)) ==> AllPositive(cart)
    {
      var n := AddQuantity(qtyField);
      if n.None? {
        return false;
      }
      var key := IntToString(artifactId);
      var before := cart;
      var current := FindOrZero(cart, key);
      cart := Put(cart, key, current + n.value);
      ok := true;
      if AllPositive(before) {
        FindOrZeroPositive(before, key);
        PutKeepsPositive(before, key, current + n.value);
      }
    }

    /**
     * `cart_update()`: applies every `qty_<id>` field of the form in turn;
     * see ApplyFormFind for what that does to each entry.
     */
    method CartUpdate(form: seq<(string, string)>)
      requires Valid()
      requires DistinctNames(form)
      modifies this`cart
      ensures Valid()
      ensures inventory == old(inventory) && ledger == old(ledger)
      ensures cart == ApplyForm(old(cart), form)
      ensures forall k :: Find(cart, k) == FieldEffect(Find(old(cart), k), FormValue(form, QtyPrefix + k))
      ensures AllPositive(old(cart)) ==> AllPositive(cart)
    {
      var i := 0;
      assert form[0..] == form;
      while i < |form|
        invariant 0 <= i <= |form|
        invariant UniqueKeys(cart)
        invariant ApplyForm(cart, form[i..]) == ApplyForm(old(cart), form)
      {
        assert form[i..][0] == form[i] && form[i..][1..] == form[i + 1..];
        cart := ApplyField(cart, form[i]);
        i := i + 1;
      }
      assert form[i..] == [];
      ApplyFormEffect(old(cart), form);
    }

    /**
     * The part of `cart_checkout()` before the purchase loop: normalise
     * the cart, refuse an empty cart or a key `int()` rejects, fetch the
     * snapshot, validate every entry against it and require a customer.
     * Nothing is changed; the normalised cart and the snapshot are handed
     * on to the purchase loop.
     */
    method Assess(customer: Option<int>) returns (outcome: Outcome, norm: seq<Entry>, snapshot: map<string, Artifact>)
      requires Valid()
      ensures outcome == Decide(inventory, cart, customer)
      ensures norm == Normalize(cart) && norm == cart
      ensures outcome == Completed ==>
                && HasCustomer(customer) && FirstUnparsable(norm).None?
                && snapshot == Snapshot(inventory, CartIds(norm)) && Priced(norm, snapshot)
    {
      NormalizePositive(cart);
      norm := Normalize(cart);
      snapshot := map[];
      if norm == [] {
        outcome := EmptyCart;
      } else {
        var bad := FirstUnparsable(norm);
        if bad.Some? {
          outcome := BadCartKey(bad.value);
        } else {
          snapshot := Snapshot(inventory, CartIds(norm));
          var problems := Validate(norm, snapshot);
          if problems != [] {
            outcome := Rejected(problems);
          } else if !HasCustomer(customer) {
            outcome := MissingCustomer;
          } else {
            CompletedCart(inventory, cart, customer);
            outcome := Completed;
          }
        }
      }
    }

    /**
     * `cart_checkout()`. Every way out before the purchase loop leaves the
     * inventory, the ledger and the cart as they were; a completed checkout
     * decrements each artifact once per cart entry, appends one record per
     * entry in cart order, and empties the cart.
     */
    method Checkout(customer: Option<int>) returns (outcome: Outcome)
      requires Valid()
      modifies this
      ensures Valid()
      ensures outcome == Decide(old(inventory), old(cart), customer)
      ensures outcome != Completed ==>
                inventory == old(inventory) && ledger == old(ledger) && cart == old(cart)
      ensures outcome == Completed ==>
                Purchased(old(inventory), old(cart), old(ledger), customer, inventory, ledger) && cart == []
    {
      var norm, snapshot;
      outcome, norm, snapshot := Assess(customer);
      if outcome == Completed {
        RecordPurchases(customer.value, snapshot, norm);
        PurchasedIntro(old(inventory), old(cart), old(ledger), customer, norm, snapshot, inventory, ledger);
        cart := [];
      }
    }

    /** The purchase loop of `cart_checkout`: for each entry in cart order,
        decrement its artifact's stock and insert its purchase record. */
    method RecordPurchases(cid: int, snapshot: map<string, Artifact>, norm: seq<Entry>)
      requires Priced(norm, snapshot)
      modifies this`inventory, this`ledger
      ensures inventory == Decremented(old(inventory), norm)
      ensures ledger == old(ledger) + Records(cid, snapshot, norm)
    {
      var i := 0;
      assert norm[0..] == norm;
      while i < |norm|
        invariant 0 <= i <= |norm|
        invariant Priced(norm[i..], snapshot)
        invariant Decremented(inventory, norm[i..]) == Decremented(old(inventory), norm)
        invariant ledger + Records(cid, snapshot, norm[i..]) == old(ledger) + Records(cid, snapshot, norm)
      {
        var e := norm[i];
        var aid := ParseInt(e.key).value;
        var total := snapshot[e.key].price * e.qty;
        DecrementedStep(inventory, norm, i);
        inventory := StockUpdate(inventory, aid, e.qty);
        var record := Purchase(cid, aid, e.qty, total, PaymentMethod);
        LedgerStep(old(ledger), ledger, cid, snapshot, norm, i);
        ledger := ledger + [record];
        i := i + 1;
      }
      assert norm[i..] == [];
    }
  }

  /** One turn of the purchase loop: inserting the current entry's record
      leaves the records of the later entries still to insert. */
  lemma LedgerStep(l0: seq<Purchase>, l: seq<Purchase>, cid: int, snap: map<string, Artifact>, c: seq<Entry>, i: nat)
    requires Priced(c, snap) && i < |c|
    requires Priced(c[i..], snap) && l + Records(cid, snap, c[i..]) == l0 + Records(cid, snap, c)
    ensures Priced(c[i + 1..], snap)
    ensures (l + [LineItem(cid, snap, c[i])]) + Records(cid, snap, c[i + 1..]) == l0 + Records(cid, snap, c)
  {
    PricedSuffix(c, snap, i + 1);
    assert c[i..][0] == c[i] && c[i..][1..] == c[i + 1..];
    var rest := Records(cid, snap, c[i + 1..]);
    assert Records(cid, snap, c[i..]) == [LineItem(cid, snap, c[i])] + rest;
    AppendAssoc(l, [LineItem(cid, snap, c[i])], rest);
  }

  lemma AppendAssoc<T>(a: seq<T>, b: seq<T>, c: seq<T>)
    ensures (a + b) + c == a + (b + c)
  {
  }

  /** The suffixes of a priced cart are priced. */
  lemma PricedSuffix(c: seq<Entry>, snap: map<string, Artifact>, i: nat)
    requires Priced(c, snap) && i <= |c|
    ensures Priced(c[i..], snap)
  {
    forall j | 0 <= j < |c| - i
      ensures c[i..][j].key in snap && ParseInt(c[i..][j].key).Some?
    {
      assert c[i..][j] == c[i + j];
    }
  }
}
