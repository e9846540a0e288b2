/**
 * The entity store behind each JPA repository (ProductRepository,
 * UserRepository, CategoryRepository). The repository interfaces carry no
 * code, so the store is modelled abstractly: a finite map from id to row,
 * the rows' order (ascending id, the order an unsorted page reads them in),
 * the ids that other rows reference (deleting one of those violates a
 * foreign key) and the counter that hands out the next id.
 *
 * Table is the store's state as a value, with its operations as functions;
 * Repository is the mutable store the services call into.
 */
module Store {
  import opened Values

  /** An entity instance: its store-assigned id and the values of its other fields. */
  datatype Stored<R> = Stored(id: Id, row: R)

  /** How deleteById ends: normally, with EmptyResultDataAccessException, or with DataIntegrityViolationException. */
  datatype DeleteOutcome = Deleted | EmptyResult | IntegrityViolation

  predicate Increasing(s: seq<Id>) {
    forall i, j :: 0 <= i < j < |s| ==> s[i] < s[j]
  }

  function Min(a: int, b: int): int {
    if a <= b then a else b
  }

  /** s with x removed. */
  function Without(s: seq<Id>, x: Id): (r: seq<Id>)
    ensures forall y :: y in r <==> y in s && y != x
    ensures Increasing(s) ==> Increasing(r)
  {
    if s == [] then []
    else if s[0] == x then Without(s[1..], x)
    else
      var w := Without(s[1..], x);
      var r := [s[0]] + w;
      assert Increasing(s) ==> Increasing(r) by {
        if Increasing(s) {
          assert Increasing(s[1..]);
          forall i, j | 0 <= i < j < |r| ensures r[i] < r[j] {
            assert r[j] == w[j - 1] && w[j - 1] in w;
            if i == 0 {
              var m :| 0 <= m < |s[1..]| && s[1..][m] == w[j - 1];
              assert s[m + 1] == w[j - 1];
            } else {
              assert r[i] == w[i - 1];
            }
          }
        }
      }
      r
  }

  /** A strictly increasing sequence lists as many ids as the set it covers. */
  lemma {:induction false} IncreasingCardinality(s: seq<Id>)
    requires Increasing(s)
    ensures |set x | x in s| == |s|
  {
    if s != [] {
      IncreasingCardinality(s[1..]);
      assert (set x | x in s) == {s[0]} + (set x | x in s[1..]);
      assert s[0] !in s[1..];
    }
  }

  /** f applied to each element of s, in order. */
  function MapEach<T, D>(f: T -> D, s: seq<T>): (r: seq<D>)
    ensures |r| == |s| && forall k :: 0 <= k < |s| ==> r[k] == f(s[k])
  {
    seq(|s|, k requires 0 <= k < |s| => f(s[k]))
  }

  datatype Table<R> = Table(rows: map<Id, R>, order: seq<Id>, referenced: set<Id>, nextId: Id)
  {
    /** The store's invariant: order lists exactly the stored ids, ascending;
        only stored rows can be referenced; every stored id is below the counter. */
    predicate Valid() {
      && Increasing(order)
      && (forall k :: k in rows ==> k in order)
      && (forall k :: k in order ==> k in rows)
      && referenced <= rows.Keys
      && (forall k :: k in rows ==> k < nextId)
    }

    /** count(). */
    function Count(): nat {
      |rows|
    }

    /** findAll(): every row exactly once, in ascending id order. */
    function Entries(): (es: seq<Stored<R>>)
      requires Valid()
      ensures |es| == Count()
      ensures forall i :: 0 <= i < |es| ==> es[i].id in rows && es[i].row == rows[es[i].id]
      ensures forall id :: id in rows ==> Stored(id, rows[id]) in es
      ensures forall i, j :: 0 <= i < j < |es| ==> es[i].id < es[j].id
    {
      IncreasingCardinality(order);
      assert rows.Keys == set x | x in order by {
        forall x ensures x in rows.Keys <==> x in (set y | y in order) {
          if x in order { assert x in rows; }
        }
      }
      var es := seq(|order|, i requires 0 <= i < |order| => Stored(order[i], rows[order[i]]));
      assert forall id :: id in rows ==> Stored(id, rows[id]) in es by {
        forall id | id in rows ensures Stored(id, rows[id]) in es {
          var i :| 0 <= i < |order| && order[i] == id;
          assert es[i] == Stored(id, rows[id]);
        }
      }
      es
    }

    /** findAll(PageRequest.of(page, size)): the rows at offsets [page * size, (page + 1) * size),
        cut short at the end of the store; a page past the end is empty, not an error. */
    function Page(page: nat, size: nat): (r: seq<Stored<R>>)
      requires Valid() && size > 0
      ensures page * size >= Count() ==> r == []
      ensures page * size < Count() ==> |r| == Min(size, Count() - page * size)
      ensures forall k :: 0 <= k < |r| ==> page * size + k < Count() && r[k] == Entries()[page * size + k]
    {
      var es := Entries();
      if page * size >= |es| then [] else es[page * size .. Min(page * size + size, |es|)]
    }

    /** findAll(pageable).map(f): the rows of that page, each mapped through f. */
    function MapPage<D>(page: nat, size: nat, f: Stored<R> -> D): (r: seq<D>)
      requires Valid() && size > 0
      ensures var offset := page * size;
        && (offset >= Count() ==> r == [])
        && (offset < Count() ==> |r| == Min(size, Count() - offset))
        && forall k :: 0 <= k < |r| ==> offset + k < Count() && r[k] == f(Entries()[offset + k])
    {
      MapEach(f, Page(page, size))
    }

    /** The first k pages of the given size, one after the other. */
    function Pages(size: nat, k: nat): seq<Stored<R>>
      requires Valid() && size > 0
    {
      if k == 0 then [] else Pages(size, k - 1) + Page(k - 1, size)
    }

    /** save() of a new entity: the row is stored under the next id, which was free. */
    function Insert(r: R): (res: (Table<R>, Id))
      requires Valid()
      ensures res.0.Valid()
      ensures res.1 == nextId && res.1 !in rows
      ensures res.0.rows == rows[res.1 := r] && res.0.Count() == Count() + 1
      ensures res.0.order == order + [res.1]
      ensures res.0.referenced == referenced && res.0.nextId > res.1
    {
      var t := Table(rows[nextId := r], order + [nextId], referenced, nextId + 1);
      assert Increasing(t.order) by {
        forall i, j | 0 <= i < j < |t.order| ensures t.order[i] < t.order[j] {
          assert t.order[i] == order[i] && order[i] in order;
        }
      }
      (t, nextId)
    }

    /** save() of an entity that is already stored: only that row changes. */
    function Put(id: Id, r: R): (t: Table<R>)
      requires Valid() && id in rows
      ensures t.Valid()
      ensures t.rows.Keys == rows.Keys && t.Count() == Count() && t.rows[id] == r
      ensures forall k :: k in rows && k != id ==> t.rows[k] == rows[k]
      ensures t.order == order && t.referenced == referenced && t.nextId == nextId
    {
      Table(rows[id := r], order, referenced, nextId)
    }

    /** deleteById(): a missing id fails, a referenced row fails and stays;
        otherwise that row, and only that row, is gone. */
    function Delete(id: Id): (res: (Table<R>, DeleteOutcome))
      requires Valid()
      ensures res.0.Valid()
      ensures res.1 == EmptyResult <==> id !in rows
      ensures res.1 == IntegrityViolation <==> id in rows && id in referenced
      ensures res.1 != Deleted ==> res.0 == this
      ensures res.1 == Deleted ==>
                && res.0.rows == rows - {id} && id !in res.0.rows
                && res.0.Count() == Count() - 1
                && res.0.referenced == referenced && res.0.nextId == nextId
    {
      if id !in rows then (this, EmptyResult)
      else if id in referenced then (this, IntegrityViolation)
      else
        var t := Table(rows - {id}, Without(order, id), referenced, nextId);
        assert t.rows.Keys == rows.Keys - {id};
        (t, Deleted)
    }
  }

  /** A newly saved row is read last: after every row that was already stored. */
  lemma InsertAppendsEntry<R>(t: Table<R>, r: R)
    requires t.Valid()
    ensures t.Insert(r).0.Entries() == t.Entries() + [Stored(t.Insert(r).1, r)]
  {
    var (t', id) := t.Insert(r);
    var es, es' := t.Entries(), t'.Entries();
    var expected := es + [Stored(id, r)];
    assert |es'| == |expected|;
    forall i | 0 <= i < |es'| ensures es'[i] == expected[i] {
      if i < |es| {
        assert t'.order[i] == t.order[i];
      }
    }
  }

  /** The window [lo, lo + size) of es continues exactly where the prefix of length lo stops. */
  lemma WindowExtendsPrefix<T>(es: seq<T>, lo: nat, size: nat)
    ensures es[..Min(lo, |es|)] + (if lo >= |es| then [] else es[lo .. Min(lo + size, |es|)])
         == es[..Min(lo + size, |es|)]
  {
    if lo < |es| {
      assert es[..lo] + es[lo .. Min(lo + size, |es|)] == es[..Min(lo + size, |es|)];
    }
  }

  /** Page k continues exactly where the first k pages stop. */
  lemma PageExtendsPrefix<R>(t: Table<R>, size: nat, k: nat)
    requires t.Valid() && size > 0
    ensures t.Entries()[..Min(k * size, t.Count())] + t.Page(k, size)
         == t.Entries()[..Min((k + 1) * size, t.Count())]
  {
    var lo := k * size;
    MultiplySucc(k, size);
    WindowExtendsPrefix(t.Entries(), lo, size);
  }

  /** Reading the pages of one size in turn, from page 0, yields the rows in order. */
  lemma {:induction false} PagesArePrefixes<R>(t: Table<R>, size: nat, k: nat)
    requires t.Valid() && size > 0
    ensures t.Pages(size, k) == t.Entries()[..Min(k * size, t.Count())]
  {
    if k == 0 {
      assert t.Entries()[..0] == [];
    } else {
      PagesArePrefixes(t, size, k - 1);
      PageExtendsPrefix(t, size, k - 1);
    }
  }

  lemma MultiplySucc(k: nat, size: nat)
    ensures (k + 1) * size == k * size + size
  {
  }

  lemma MultiplyAtLeast(n: nat, size: nat)
    requires size > 0
    ensures n * size >= n
  {
  }

  /** Every row of the store appears on exactly one page, and the pages hold nothing else. */
  lemma PagesCoverAllRows<R>(t: Table<R>, size: nat)
    requires t.Valid() && size > 0
    ensures t.Pages(size, t.Count()) == t.Entries()
  {
    PagesArePrefixes(t, size, t.Count());
    MultiplyAtLeast(t.Count(), size);
    assert t.Entries()[..t.Count()] == t.Entries();
  }

  /**
   * The mutable store. Its methods are the repository primitives the
   * services call; each is specified by the Table operation it performs.
   */
  class Repository<R> {
    var rows: map<Id, R>
    var order: seq<Id>
    var referenced: set<Id>
    var nextId: Id

    function State(): Table<R>
      reads this
    {
      Table(rows, order, referenced, nextId)
    }

    ghost predicate Valid()
      reads this
    {
      State().Valid()
    }

    constructor (initial: Table<R>)
      requires initial.Valid()
      ensures Valid() && State() == initial
    {
      rows, order, referenced, nextId := initial.rows, initial.order, initial.referenced, initial.nextId;
    }

    /** getReferenceById: None stands for the lazy reference whose first access
        raises javax.persistence.EntityNotFoundException. */
    method GetReferenceById(id: Id) returns (r: Option<R>)
      ensures r.Some? <==> id in rows
      ensures r.Some? ==> r.value == rows[id]
    {
      r := if id in rows then Some(rows[id]) else None;
    }

    /** save(entity): a new entity (no id) gets the next id; a stored one is overwritten. */
    method Save(id: Option<Id>, r: R) returns (saved: Id)
      requires Valid()
      requires id.Some? ==> id.value in rows
      modifies this
      ensures Valid()
      ensures id.None? ==> (State(), saved) == old(State()).Insert(r)
      ensures id.Some? ==> saved == id.value && State() == old(State()).Put(id.value, r)
    {
      match id
      case None =>
        ghost var inserted := State().Insert(r);
        saved := nextId;
        rows := rows[nextId := r];
        order := order + [nextId];
        nextId := nextId + 1;
        assert State() == inserted.0;
      case Some(k) =>
        saved := k;
        rows := rows[k := r];
    }

    method DeleteById(id: Id) returns (outcome: DeleteOutcome)
      requires Valid()
      modifies this
      ensures Valid()
      ensures (State(), outcome) == old(State()).Delete(id)
    {
      if id !in rows {
        outcome := EmptyResult;
      } else if id in referenced {
        outcome := IntegrityViolation;
      } else {
        rows := rows - {id};
        order := Without(order, id);
        outcome := Deleted;
      }
    }
  }
}
