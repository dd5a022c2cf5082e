/** Inventory records as the UI receives them, the edit draft and create form it
    keeps, the request bodies it sends, and the pure list transforms its
    handlers apply once the server has answered. */
module Inventory {
  import opened Js

  /** A stored document. The collection has no schema, so every field may be
      absent; older documents carry `name`/`quantity` where newer ones carry
      `prodname`/`qty`. `id` is the document's `_id`. */
  datatype Record = Record(
    id: Option<Value>,
    prodname: Option<Value>,
    name: Option<Value>,
    qty: Option<Value>,
    quantity: Option<Value>,
    price: Option<Value>,
    status: Option<Value>)

  /** The create form: every input yields a string. */
  datatype Form = Form(prodname: string, qty: string, price: string, status: string)

  /** The edit draft: seeded from a record, so its fields hold whatever
      values the record had, until an input replaces one with a string. */
  datatype Draft = Draft(prodname: Value, qty: Value, price: Value, status: Value)

  /** Which of the four editable fields an input writes. */
  datatype Field = ProdNameField | QtyField | PriceField | StatusField

  const BLANK_FORM := Form("", "", "", "S")
  const BLANK_DRAFT := Draft(Str(""), Str(""), Str(""), Str("S"))

  /** The result of `Number(arg)`. The conversion, with its NaN cases, is left
      uninterpreted: the model records only which value was converted. */
  datatype Coerced = NumberOf(arg: Value)

  /** The body of a create or update request. */
  datatype Payload = Payload(prodname: Value, qty: Coerced, price: Coerced, status: Value)

  /** What a list entry shows when it is not being edited. */
  datatype Display = Display(name: Value, qty: Value, price: Value, status: Value)

  // ---------------------------------------------------------------------------
  // Field-name fallback

  /** The reference meaning of `primary ?? alternate ?? fallback`, by cases. */
  predicate ResolvesTo(r: Value, primary: Option<Value>, alternate: Option<Value>, fallback: Value) {
    if !Nullish(primary) then Some(r) == primary
    else if !Nullish(alternate) then Some(r) == alternate
    else r == fallback
  }

  /** `primary ?? alternate ?? fallback`, written with the operator. */
  function Resolve(primary: Option<Value>, alternate: Option<Value>, fallback: Value): (r: Value)
    ensures ResolvesTo(r, primary, alternate, fallback)
  {
    Coalesce(Coalesce(primary, alternate), Some(fallback)).value
  }

  /** The draft `startEdit` builds from a record. */
  function DraftOf(it: Record): (d: Draft)
    ensures ResolvesTo(d.prodname, it.prodname, it.name, Str(""))
    ensures ResolvesTo(d.qty, it.qty, it.quantity, Str(""))
    ensures ResolvesTo(d.price, it.price, None, Str(""))
    ensures ResolvesTo(d.status, it.status, None, Str("S"))
  {
    Draft(
      Resolve(it.prodname, it.name, Str("")),
      Resolve(it.qty, it.quantity, Str("")),
      Resolve(it.price, None, Str("")),
      Resolve(it.status, None, Str("S")))
  }

  /** The values a list entry shows for a record. */
  function DisplayOf(it: Record): (v: Display)
    ensures ResolvesTo(v.name, it.prodname, it.name, Str("(no name)"))
    ensures ResolvesTo(v.qty, it.qty, it.quantity, Str("-"))
    ensures ResolvesTo(v.price, it.price, None, Str("-"))
    ensures ResolvesTo(v.status, it.status, None, Str("-"))
  {
    Display(
      Resolve(it.prodname, it.name, Str("(no name)")),
      Resolve(it.qty, it.quantity, Str("-")),
      Resolve(it.price, None, Str("-")),
      Resolve(it.status, None, Str("-")))
  }

  predicate HasName(it: Record) { !Nullish(it.prodname) || !Nullish(it.name) }
  predicate HasQty(it: Record) { !Nullish(it.qty) || !Nullish(it.quantity) }

  /** The draft and the list entry resolve the same underlying field and
      differ only in the placeholder used when the record has none. */
  lemma DraftAgreesWithDisplay(it: Record)
    ensures HasName(it) ==> DraftOf(it).prodname == DisplayOf(it).name
    ensures !HasName(it) ==> DraftOf(it).prodname == Str("") && DisplayOf(it).name == Str("(no name)")
    ensures HasQty(it) ==> DraftOf(it).qty == DisplayOf(it).qty
    ensures !HasQty(it) ==> DraftOf(it).qty == Str("") && DisplayOf(it).qty == Str("-")
    ensures !Nullish(it.price) ==> DraftOf(it).price == DisplayOf(it).price
  {
  }

  /** A document whose current names are missing or `null` shows, and seeds
      the draft with, the values under the legacy names. */
  lemma LegacyFieldsDisplayed(it: Record, n: Value, q: Value)
    requires Nullish(it.prodname) && Nullish(it.qty)
    requires it.name == Some(n) && it.quantity == Some(q) && n != Null && q != Null
    ensures DisplayOf(it).name == n && DisplayOf(it).qty == q
    ensures DraftOf(it).prodname == n && DraftOf(it).qty == q
  {
  }

  // ---------------------------------------------------------------------------
  // Request bodies

  /** The body `createItem` posts. */
  function CreatePayload(f: Form): (p: Payload)
    ensures p.prodname == Str(f.prodname)
    ensures p.qty == NumberOf(Str(f.qty)) && p.price == NumberOf(Str(f.price))
    ensures Truthy(p.status)
    ensures f.status != "" ==> p.status == Str(f.status)
    ensures f.status == "" ==> p.status == Str("S")
  {
    Payload(Str(f.prodname), NumberOf(Str(f.qty)), NumberOf(Str(f.price)), Or(Str(f.status), Str("S")))
  }

  /** The body `saveEdit` puts. */
  function EditPayload(d: Draft): (p: Payload)
    ensures p.prodname == d.prodname
    ensures p.qty == NumberOf(d.qty) && p.price == NumberOf(d.price)
    ensures Truthy(p.status)
    ensures Truthy(d.status) ==> p.status == d.status
    ensures !Truthy(d.status) ==> p.status == Str("S")
  {
    Payload(d.prodname, NumberOf(d.qty), NumberOf(d.price), Or(d.status, Str("S")))
  }

  /** Saving a draft nobody touched sends the record's own status when it is
      truthy and "S" otherwise, so a stored `""`, `0` or `false` status, which
      the draft keeps, is replaced on the way out. */
  lemma UntouchedDraftStatus(it: Record)
    ensures it.status.Some? && Truthy(it.status.value) ==> EditPayload(DraftOf(it)).status == it.status.value
    ensures !(it.status.Some? && Truthy(it.status.value)) ==> EditPayload(DraftOf(it)).status == Str("S")
  {
  }

  /** The value an input of the edited row shows for field `g`. */
  function DraftGet(d: Draft, g: Field): Value {
    match g
    case ProdNameField => d.prodname
    case QtyField => d.qty
    case PriceField => d.price
    case StatusField => d.status
  }

  /** The value an input of the create form shows for field `g`. */
  function FormGet(form: Form, g: Field): string {
    match g
    case ProdNameField => form.prodname
    case QtyField => form.qty
    case PriceField => form.price
    case StatusField => form.status
  }

  /** The draft after one input writes `v` into field `f`: that field now
      reads `v` and every other field reads as before. */
  function SetDraftField(d: Draft, f: Field, v: string): (e: Draft)
    ensures DraftGet(e, f) == Str(v)
    ensures forall g :: g != f ==> DraftGet(e, g) == DraftGet(d, g)
  {
    match f
    case ProdNameField => d.(prodname := Str(v))
    case QtyField => d.(qty := Str(v))
    case PriceField => d.(price := Str(v))
    case StatusField => d.(status := Str(v))
  }

  /** The form after one input writes `v` into field `f`: that field now
      reads `v` and every other field reads as before. */
  function SetFormField(form: Form, f: Field, v: string): (e: Form)
    ensures FormGet(e, f) == v
    ensures forall g :: g != f ==> FormGet(e, g) == FormGet(form, g)
  {
    match f
    case ProdNameField => form.(prodname := v)
    case QtyField => form.(qty := v)
    case PriceField => form.(price := v)
    case StatusField => form.(status := v)
  }

  /** The browser submits the create form only when the three `required`
      inputs are filled in. So a submitted request always names the item,
      and the blank form a successful create leaves behind cannot be sent
      again until something is typed into it. */
  predicate Submittable(f: Form)
    ensures Submittable(f) ==> CreatePayload(f).prodname != Str("")
    ensures Submittable(f) ==> f != BLANK_FORM
  {
    f.prodname != "" && f.qty != "" && f.price != ""
  }

  // ---------------------------------------------------------------------------
  // List transforms

  /** `it._id === id`. */
  predicate HasId(it: Record, id: Option<Value>) {
    StrictEquals(it.id, id)
  }

  /** No two entries share an `_id`, as the store guarantees for its documents. */
  predicate UniqueIds(s: seq<Record>) {
    forall i, j :: 0 <= i < j < |s| ==> !StrictEquals(s[i].id, s[j].id)
  }

  /** `[rec, ...s]`. */
  function Prepend(rec: Record, s: seq<Record>): (r: seq<Record>)
    ensures |r| == |s| + 1
    ensures r[0] == rec && r[1..] == s
  {
    [rec] + s
  }

  /** `s.filter(i => i._id !== id)`. */
  function RemoveById(s: seq<Record>, id: Option<Value>): (r: seq<Record>)
    ensures |r| <= |s|
    ensures forall x :: x in r <==> x in s && !HasId(x, id)
    ensures forall x :: multiset(r)[x] == if HasId(x, id) then 0 else multiset(s)[x]
  {
    if s == [] then []
    else
      assert s == [s[0]] + s[1..];
      if HasId(s[0], id) then RemoveById(s[1..], id)
      else [s[0]] + RemoveById(s[1..], id)
  }

  /** `s.map(i => i._id === id ? rec : i)`. */
  function ReplaceById(s: seq<Record>, id: Option<Value>, rec: Record): (r: seq<Record>)
    ensures |r| == |s|
    ensures forall k :: 0 <= k < |s| ==> r[k] == if HasId(s[k], id) then rec else s[k]
  {
    if s == [] then []
    else [if HasId(s[0], id) then rec else s[0]] + ReplaceById(s[1..], id, rec)
  }

  /** Filtering works entry by entry: the survivors keep their relative order. */
  lemma {:induction false} RemoveByIdAppend(a: seq<Record>, b: seq<Record>, id: Option<Value>)
    ensures RemoveById(a + b, id) == RemoveById(a, id) + RemoveById(b, id)
  {
    if a == [] {
      assert a + b == b;
    } else {
      assert (a + b)[0] == a[0];
      assert (a + b)[1..] == a[1..] + b;
      RemoveByIdAppend(a[1..], b, id);
    }
  }

  /** Deleting an id no entry carries changes nothing. */
  lemma {:induction false} RemoveByIdAbsent(s: seq<Record>, id: Option<Value>)
    requires forall k :: 0 <= k < |s| ==> !HasId(s[k], id)
    ensures RemoveById(s, id) == s
  {
    if s != [] {
      RemoveByIdAbsent(s[1..], id);
      assert s == [s[0]] + s[1..];
    }
  }

  /** Deleting twice is deleting once. */
  lemma {:induction false} RemoveByIdIdempotent(s: seq<Record>, id: Option<Value>)
    ensures RemoveById(RemoveById(s, id), id) == RemoveById(s, id)
  {
    var r := RemoveById(s, id);
    forall k | 0 <= k < |r| ensures !HasId(r[k], id) {
      assert r[k] in r;
    }
    RemoveByIdAbsent(r, id);
  }

  /** Deleting removes a matching entry between two runs of non-matching ones. */
  lemma RemoveByIdSplit(a: seq<Record>, x: Record, b: seq<Record>, id: Option<Value>)
    requires HasId(x, id)
    requires forall i :: 0 <= i < |a| ==> !HasId(a[i], id)
    requires forall i :: 0 <= i < |b| ==> !HasId(b[i], id)
    ensures RemoveById(a + ([x] + b), id) == a + b
  {
    RemoveByIdAppend(a, [x] + b, id);
    RemoveByIdAppend([x], b, id);
    assert RemoveById([x], id) == [] by {
      assert [x][1..] == [];
    }
    RemoveByIdAbsent(a, id);
    RemoveByIdAbsent(b, id);
  }

  /** With unique ids, deleting the id at position `k` removes exactly that
      one entry and leaves the others, in order. */
  lemma RemoveByIdUnique(s: seq<Record>, id: Option<Value>, k: nat)
    requires UniqueIds(s) && k < |s| && HasId(s[k], id)
    ensures RemoveById(s, id) == s[..k] + s[k+1..]
    ensures |RemoveById(s, id)| == |s| - 1
  {
    var a, b := s[..k], s[k+1..];
    assert s == a + ([s[k]] + b);
    forall i | 0 <= i < |a| ensures !HasId(a[i], id) {
      assert a[i] == s[i] && !StrictEquals(s[i].id, s[k].id);
    }
    forall i | 0 <= i < |b| ensures !HasId(b[i], id) {
      assert b[i] == s[k + 1 + i] && !StrictEquals(s[k].id, s[k + 1 + i].id);
    }
    RemoveByIdSplit(a, s[k], b, id);
  }

  /** Deleting keeps the ids unique. */
  lemma {:induction false} RemoveByIdKeepsUnique(s: seq<Record>, id: Option<Value>)
    requires UniqueIds(s)
    ensures UniqueIds(RemoveById(s, id))
  {
    if s != [] {
      var t := RemoveById(s[1..], id);
      assert UniqueIds(s[1..]) by {
        forall i, j | 0 <= i < j < |s[1..]| ensures !StrictEquals(s[1..][i].id, s[1..][j].id) {
          assert s[1..][i] == s[i + 1] && s[1..][j] == s[j + 1];
        }
      }
      RemoveByIdKeepsUnique(s[1..], id);
      if !HasId(s[0], id) {
        var r := [s[0]] + t;
        forall i, j | 0 <= i < j < |r| ensures !StrictEquals(r[i].id, r[j].id) {
          if i == 0 {
            assert r[j] == t[j - 1];
            assert t[j - 1] in s[1..];
            var m :| 0 <= m < |s[1..]| && s[1..][m] == t[j - 1];
            assert !StrictEquals(s[0].id, s[m + 1].id);
          } else {
            assert r[i] == t[i - 1] && r[j] == t[j - 1];
          }
        }
      }
    }
  }

  /** With unique ids, saving the entry at position `k` replaces just it. */
  lemma ReplaceByIdUnique(s: seq<Record>, id: Option<Value>, rec: Record, k: nat)
    requires UniqueIds(s) && k < |s| && HasId(s[k], id)
    ensures ReplaceById(s, id, rec) == s[k := rec]
  {
    var r := ReplaceById(s, id, rec);
    forall i | 0 <= i < |s| ensures r[i] == s[k := rec][i] {
      if i < k {
        assert !StrictEquals(s[i].id, s[k].id);
      } else if i > k {
        assert !StrictEquals(s[k].id, s[i].id);
      }
    }
  }

  /** Saving an id no entry carries changes nothing. */
  lemma ReplaceByIdAbsent(s: seq<Record>, id: Option<Value>, rec: Record)
    requires forall k :: 0 <= k < |s| ==> !HasId(s[k], id)
    ensures ReplaceById(s, id, rec) == s
  {
  }

  /** A server record that keeps the saved id keeps every entry's id, so the
      ids stay unique. */
  lemma ReplaceByIdKeepsIds(s: seq<Record>, id: Option<Value>, rec: Record)
    requires HasId(rec, id)
    ensures forall k :: 0 <= k < |s| ==> ReplaceById(s, id, rec)[k].id == s[k].id
    ensures UniqueIds(s) ==> UniqueIds(ReplaceById(s, id, rec))
  {
  }

  /** Prepending a record with a fresh id keeps the ids unique. */
  lemma PrependKeepsUnique(rec: Record, s: seq<Record>)
    requires UniqueIds(s)
    requires forall k :: 0 <= k < |s| ==> !StrictEquals(rec.id, s[k].id)
    ensures UniqueIds(Prepend(rec, s))
  {
    var r := Prepend(rec, s);
    forall i, j | 0 <= i < j < |r| ensures !StrictEquals(r[i].id, r[j].id) {
      assert r[j] == s[j - 1];
      if i > 0 {
        assert r[i] == s[i - 1];
      }
    }
  }

  /** Deleting the record a create just added restores the list, provided
      its id is comparable (not NaN) and no older entry carries it. */
  lemma DeleteUndoesCreate(rec: Record, s: seq<Record>)
    requires HasId(rec, rec.id)
    requires forall k :: 0 <= k < |s| ==> !HasId(s[k], rec.id)
    ensures RemoveById(Prepend(rec, s), rec.id) == s
  {
    var r := Prepend(rec, s);
    assert r[1..] == s;
    RemoveByIdAbsent(s, rec.id);
  }
}
