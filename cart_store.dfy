/**
 * The session cart: a Python dict from artifact-id string to quantity.
 * A dict keeps its keys in insertion order, so the cart is a sequence of
 * entries with distinct keys; assigning to an existing key keeps its
 * place, assigning to a new key appends, `pop` removes in place.
 */
module CartStore {
  import opened Wrappers
  import opened PyText

  datatype Entry = Entry(key: string, qty: int)

  /** The dict invariant: no key occurs twice. */
  predicate UniqueKeys(c: seq<Entry>) {
    forall i, j :: 0 <= i < j < |c| ==> c[i].key != c[j].key
  }

  /** Every stored quantity is positive. */
  predicate AllPositive(c: seq<Entry>) {
    forall i :: 0 <= i < |c| ==> c[i].qty > 0
  }

  /** Position of `k`, if present. */
  function IndexOf(c: seq<Entry>, k: string): (r: Option<nat>)
    ensures r.None? <==> forall i :: 0 <= i < |c| ==> c[i].key != k
    ensures r.Some? ==> r.value < |c| && c[r.value].key == k
                        && forall i :: 0 <= i < r.value ==> c[i].key != k
  {
    if c == [] then None
    else if c[0].key == k then Some(0)
    else match IndexOf(c[1..], k)
      case None => None
      case Some(i) => Some(i + 1)
  }

  /** `cart.get(k)`. */
  function Find(c: seq<Entry>, k: string): (r: Option<int>)
    ensures r.None? <==> forall i :: 0 <= i < |c| ==> c[i].key != k
    ensures r.Some? ==> exists i :: 0 <= i < |c| && c[i] == Entry(k, r.value)
  {
    match IndexOf(c, k)
    case None => None
    case Some(i) => Some(c[i].qty)
  }

  /** With distinct keys, the entry at any position is what `Find` sees. */
  lemma FindAt(c: seq<Entry>, i: nat)
    requires UniqueKeys(c) && i < |c|
    ensures Find(c, c[i].key) == Some(c[i].qty)
  {
  }

  /** Looking up a key in a non-empty cart looks at the first entry, then
      at the rest. */
  lemma FindCons(c: seq<Entry>, k: string)
    requires c != []
    ensures Find(c, k) == if c[0].key == k then Some(c[0].qty) else Find(c[1..], k)
  {
  }

  /** `cart.get(k, 0)`. */
  function FindOrZero(c: seq<Entry>, k: string): (q: int)
    ensures (forall i :: 0 <= i < |c| ==> c[i].key != k) ==> q == 0
    ensures UniqueKeys(c) ==> forall i :: 0 <= i < |c| && c[i].key == k ==> q == c[i].qty
  {
    match Find(c, k)
    case None => 0
    case Some(q) =>
      assert UniqueKeys(c) ==> forall i :: 0 <= i < |c| && c[i].key == k ==> q == c[i].qty by {
        if UniqueKeys(c) {
          forall i | 0 <= i < |c| && c[i].key == k
            ensures q == c[i].qty
          {
            FindAt(c, i);
          }
        }
      }
      q
  }

  /** `cart[k] = v`. */
  function Put(c: seq<Entry>, k: string, v: int): (r: seq<Entry>)
    requires UniqueKeys(c)
    ensures UniqueKeys(r)
    ensures Find(r, k) == Some(v)
    ensures forall k' :: k' != k ==> Find(r, k') == Find(c, k')
    ensures Find(c, k).Some? ==> |r| == |c| && forall i :: 0 <= i < |c| ==> r[i].key == c[i].key
    ensures Find(c, k).None? ==> r == c + [Entry(k, v)]
  {
    match IndexOf(c, k)
    case None =>
      var r := c + [Entry(k, v)];
      assert forall k' :: k' != k ==> Find(r, k') == Find(c, k') by {
        forall k' | k' != k ensures Find(r, k') == Find(c, k') {
          if Find(c, k').Some? {
            var i :| 0 <= i < |c| && c[i] == Entry(k', Find(c, k').value);
            FindAt(r, i);
          }
        }
      }
      FindAt(r, |c|);
      r
    case Some(i) =>
      var r := c[i := Entry(k, v)];
      assert forall k' :: k' != k ==> Find(r, k') == Find(c, k') by {
        forall k' | k' != k ensures Find(r, k') == Find(c, k') {
          if Find(c, k').Some? {
            var j :| 0 <= j < |c| && c[j] == Entry(k', Find(c, k').value);
            FindAt(r, j);
          }
        }
      }
      FindAt(r, i);
      r
  }

  /** In a cart of positive quantities, `cart.get(k, 0)` is not negative. */
  lemma FindOrZeroPositive(c: seq<Entry>, k: string)
    requires AllPositive(c)
    ensures FindOrZero(c, k) >= 0
  {
    if Find(c, k).Some? {
      var j :| 0 <= j < |c| && c[j] == Entry(k, Find(c, k).value);
    }
  }

  /** Storing a positive quantity keeps every quantity positive. */
  lemma PutKeepsPositive(c: seq<Entry>, k: string, v: int)
    requires UniqueKeys(c) && AllPositive(c) && v > 0
    ensures AllPositive(Put(c, k, v))
  {
    var r := Put(c, k, v);
    forall i | 0 <= i < |r| ensures r[i].qty > 0 {
      FindAt(r, i);
      if r[i].key != k {
        var j :| 0 <= j < |c| && c[j] == Entry(r[i].key, Find(c, r[i].key).value);
      }
    }
  }

  /** `cart.pop(k, None)`. */
  function Pop(c: seq<Entry>, k: string): (r: seq<Entry>)
    requires UniqueKeys(c)
    ensures UniqueKeys(r)
    ensures Find(r, k) == None
    ensures forall k' :: k' != k ==> Find(r, k') == Find(c, k')
    ensures Find(c, k).None? ==> r == c
    ensures Find(c, k).Some? ==> exists i :: 0 <= i < |c| && c[i].key == k && r == c[..i] + c[i + 1..]
  {
    match IndexOf(c, k)
    case None => c
    case Some(i) =>
      RemoveAt(c, i);
      c[..i] + c[i + 1..]
  }

  /** Deleting the entry at position `i` deletes exactly its key. */
  lemma RemoveAt(c: seq<Entry>, i: nat)
    requires UniqueKeys(c) && i < |c|
    ensures UniqueKeys(c[..i] + c[i + 1..])
    ensures Find(c[..i] + c[i + 1..], c[i].key) == None
    ensures forall k' :: k' != c[i].key ==> Find(c[..i] + c[i + 1..], k') == Find(c, k')
  {
    var r := c[..i] + c[i + 1..];
    RemovedEntries(c, i);
    forall k' | k' != c[i].key ensures Find(r, k') == Find(c, k') {
      FindAfterRemove(c, i, k');
    }
  }

  lemma RemovedEntries(c: seq<Entry>, i: nat)
    requires UniqueKeys(c) && i < |c|
    ensures |c[..i] + c[i + 1..]| == |c| - 1
    ensures forall j :: 0 <= j < |c| - 1 ==> (c[..i] + c[i + 1..])[j] == (if j < i then c[j] else c[j + 1])
    ensures UniqueKeys(c[..i] + c[i + 1..])
  {
  }

  lemma FindAfterRemove(c: seq<Entry>, i: nat, k': string)
    requires UniqueKeys(c) && i < |c| && k' != c[i].key
    ensures Find(c[..i] + c[i + 1..], k') == Find(c, k')
  {
    var r := c[..i] + c[i + 1..];
    RemovedEntries(c, i);
    if Find(c, k').Some? {
      var j :| 0 <= j < |c| && c[j] == Entry(k', Find(c, k').value);
      var j' := if j < i then j else j - 1;
      assert r[j'] == c[j];
      FindAt(r, j');
    } else {
      assert forall j :: 0 <= j < |r| ==> r[j].key != k';
    }
  }

  /** The quantity `cart_add` adds: `max(1, int(form.get("qty", 1)))`,
      or `None` when `int` rejects the field. */
  function AddQuantity(qtyField: Option<string>): (r: Option<int>)
    ensures r.Some? ==> r.value >= 1
    ensures r.None? <==> qtyField.Some? && ParseInt(qtyField.value).None?
    ensures qtyField.None? ==> r == Some(1)
    ensures qtyField.Some? && ParseInt(qtyField.value).Some? ==>
              r == Some(if ParseInt(qtyField.value).value < 1 then 1 else ParseInt(qtyField.value).value)
  {
    match qtyField
    case None => Some(1)
    case Some(s) =>
      match ParseInt(s)
      case None => None
      case Some(q) => Some(if q < 1 then 1 else q)
  }

  /** The form-field prefix `cart_update` acts on. */
  const QtyPrefix: string := "qty_"

  /** One form field of `cart_update`: `qty_<id>` with an integer value
      removes `<id>` (value <= 0) or sets it; anything else is ignored. */
  function ApplyField(c: seq<Entry>, field: (string, string)): (r: seq<Entry>)
    requires UniqueKeys(c)
    ensures UniqueKeys(r)
  {
    var (key, val) := field;
    if StartsWith(key, QtyPrefix) then
      match ParseInt(val)
      case None => c
      case Some(q) => if q <= 0 then Pop(c, key[|QtyPrefix|..]) else Put(c, key[|QtyPrefix|..], q)
    else c
  }

  /** `cart_update` over all submitted fields, in form order. */
  function ApplyForm(c: seq<Entry>, form: seq<(string, string)>): (r: seq<Entry>)
    requires UniqueKeys(c)
    ensures UniqueKeys(r)
    decreases |form|
  {
    if form == [] then c else ApplyForm(ApplyField(c, form[0]), form[1..])
  }

  /** The value submitted under `name`, if any. */
  function FormValue(form: seq<(string, string)>, name: string): (v: Option<string>) {
    if form == [] then None
    else if form[0].0 == name then Some(form[0].1)
    else FormValue(form[1..], name)
  }

  /** What the field for one entry does to that entry's quantity. */
  function FieldEffect(current: Option<int>, field: Option<string>): (r: Option<int>) {
    match field
    case None => current
    case Some(v) =>
      match ParseInt(v)
      case None => current
      case Some(q) => if q <= 0 then None else Some(q)
  }

  /** The form fields are those of `request.form.items()`: one per name. */
  predicate DistinctNames(form: seq<(string, string)>) {
    forall i, j :: 0 <= i < j < |form| ==> form[i].0 != form[j].0
  }

  /**
   * After `cart_update`, the entry for `k` is decided by the field
   * `qty_<k>` alone: an integer <= 0 removes it, a positive integer sets
   * it, an unparseable value or no such field leaves it as it was.
   */
  lemma {:induction false} ApplyFormFind(c: seq<Entry>, form: seq<(string, string)>, k: string)
    requires UniqueKeys(c) && DistinctNames(form)
    ensures Find(ApplyForm(c, form), k) == FieldEffect(Find(c, k), FormValue(form, QtyPrefix + k))
    decreases |form|
  {
    if form != [] {
      var c1 := ApplyField(c, form[0]);
      var name := QtyPrefix + k;
      assert DistinctNames(form[1..]) by {
        forall i, j | 0 <= i < j < |form[1..]| ensures form[1..][i].0 != form[1..][j].0 {
          assert form[1..][i] == form[i + 1] && form[1..][j] == form[j + 1];
        }
      }
      ApplyFormFind(c1, form[1..], k);
      var key := form[0].0;
      if key == name {
        assert key[|QtyPrefix|..] == k;
        assert FormValue(form[1..], name) == None by {
          FormValueNone(form[1..], name);
        }
      } else {
        if StartsWith(key, QtyPrefix) {
          assert key == QtyPrefix + key[|QtyPrefix|..];
          assert key[|QtyPrefix|..] != k;
        }
        assert Find(c1, k) == Find(c, k);
      }
    }
  }

  /** A name has a value exactly when some field carries it, and the
      value is that of the first such field. */
  lemma {:induction false} FormValueFirst(form: seq<(string, string)>, name: string)
    ensures FormValue(form, name).None? <==> forall i :: 0 <= i < |form| ==> form[i].0 != name
    ensures FormValue(form, name).Some? ==>
              exists i :: 0 <= i < |form| && form[i] == (name, FormValue(form, name).value)
                          && forall j :: 0 <= j < i ==> form[j].0 != name
    decreases |form|
  {
    if form != [] && form[0].0 != name {
      FormValueFirst(form[1..], name);
      assert forall i :: 1 <= i < |form| ==> form[i] == form[1..][i - 1];
      if FormValue(form, name).Some? {
        var i :| 0 <= i < |form[1..]| && form[1..][i] == (name, FormValue(form, name).value)
                 && forall j :: 0 <= j < i ==> form[1..][j].0 != name;
        assert form[i + 1] == (name, FormValue(form, name).value);
      }
    } else if form != [] {
      assert form[0] == (name, FormValue(form, name).value);
    }
  }

  /** A name that no field carries has no value. */
  lemma {:induction false} FormValueNone(form: seq<(string, string)>, name: string)
    requires forall i :: 0 <= i < |form| ==> form[i].0 != name
    ensures FormValue(form, name) == None
    decreases |form|
  {
    if form != [] {
      FormValueNone(form[1..], name);
    }
  }

  /** What a whole form does to each key, and that it keeps positivity. */
  lemma ApplyFormEffect(c: seq<Entry>, form: seq<(string, string)>)
    requires UniqueKeys(c) && DistinctNames(form)
    ensures forall k :: Find(ApplyForm(c, form), k) == FieldEffect(Find(c, k), FormValue(form, QtyPrefix + k))
    ensures AllPositive(c) ==> AllPositive(ApplyForm(c, form))
  {
    forall k | true
      ensures Find(ApplyForm(c, form), k) == FieldEffect(Find(c, k), FormValue(form, QtyPrefix + k))
    {
      ApplyFormFind(c, form, k);
    }
    if AllPositive(c) {
      ApplyFormPositive(c, form);
    }
  }

  /** Neither `cart_add` nor `cart_update` can store a quantity <= 0. */
  lemma {:induction false} ApplyFormPositive(c: seq<Entry>, form: seq<(string, string)>)
    requires UniqueKeys(c) && AllPositive(c)
    ensures AllPositive(ApplyForm(c, form))
    decreases |form|
  {
    if form != [] {
      var c1 := ApplyField(c, form[0]);
      assert AllPositive(c1) by {
        forall i | 0 <= i < |c1| ensures c1[i].qty > 0 {
          FindAt(c1, i);
          var k := c1[i].key;
          if Find(c, k).Some? {
            var j :| 0 <= j < |c| && c[j] == Entry(k, Find(c, k).value);
          }
        }
      }
      ApplyFormPositive(c1, form[1..]);
    }
  }
}
