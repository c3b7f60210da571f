/** The content store: blobs shared by stores through a table of rows, with a reference count on each
    blob.  Every operation is one transaction: if a statement fails, nothing changes. */
module ContentStore {

  type StoreID = nat
  type BlobID = string

  datatype Blob = Blob(data: string, rc: int)

  datatype Tables = Tables(
    blobs: map<BlobID, Blob>,
    stores: set<StoreID>,
    rows: set<(StoreID, BlobID)>,
    nextStore: nat)

  const EMPTY := Tables(map[], {}, {}, 1)

  const MAX_BLOB_SIZE := 0x20_0000

  // ----- what is counted -----

  /** The stores that hold a blob. */
  function Holders(rows: set<(StoreID, BlobID)>, id: BlobID): set<StoreID> {
    set r | r in rows && r.1 == id :: r.0
  }

  /** Rows refer to existing stores and blobs; identifiers are handed out from 1. */
  ghost predicate Referential(t: Tables) {
    && (forall r :: r in t.rows ==> r.0 in t.stores && r.1 in t.blobs)
    && t.nextStore >= 1 && forall s :: s in t.stores ==> 1 <= s < t.nextStore
  }

  /** Each blob's count is the number of stores holding it. */
  ghost predicate Conserved(t: Tables) {
    forall id :: id in t.blobs ==> t.blobs[id].rc == |Holders(t.rows, id)|
  }

  /** Each blob's count is at most that number. */
  ghost predicate NotOvercounted(t: Tables) {
    forall id :: id in t.blobs ==> t.blobs[id].rc <= |Holders(t.rows, id)|
  }

  lemma HoldersAdd(rows: set<(StoreID, BlobID)>, sid: StoreID, id: BlobID, other: BlobID)
    requires (sid, id) !in rows
    ensures |Holders(rows + {(sid, id)}, other)| == |Holders(rows, other)| + if other == id then 1 else 0
  {
    var more := rows + {(sid, id)};
    if other == id {
      assert Holders(more, id) == Holders(rows, id) + {sid};
    } else {
      assert Holders(more, other) == Holders(rows, other);
    }
  }

  lemma HoldersRemove(rows: set<(StoreID, BlobID)>, sid: StoreID, id: BlobID, other: BlobID)
    requires (sid, id) in rows
    ensures |Holders(rows - {(sid, id)}, other)| == |Holders(rows, other)| - if other == id then 1 else 0
  {
    HoldersAdd(rows - {(sid, id)}, sid, id, other);
    assert rows - {(sid, id)} + {(sid, id)} == rows;
  }

  function RowsOf(rows: set<(StoreID, BlobID)>, sid: StoreID): set<(StoreID, BlobID)> {
    set r | r in rows && r.0 == sid
  }

  lemma HoldersDrop(rows: set<(StoreID, BlobID)>, sid: StoreID, id: BlobID)
    ensures |Holders(rows - RowsOf(rows, sid), id)| == |Holders(rows, id)| - if (sid, id) in rows then 1 else 0
  {
    var left := rows - RowsOf(rows, sid);
    if (sid, id) in rows {
      assert Holders(rows, id) == Holders(left, id) + {sid};
    } else {
      assert Holders(left, id) == Holders(rows, id);
    }
  }

  // ----- the operations, as functions on tables -----

  datatype Outcome = Done | TooLarge | NotFound | ForeignKeyViolation

  function Count(t: Tables, id: BlobID, delta: int): Tables {
    if id in t.blobs then t.(blobs := t.blobs[id := t.blobs[id].(rc := t.blobs[id].rc + delta)]) else t
  }

  function CreateStore(t: Tables): Tables {
    t.(stores := t.stores + {t.nextStore}, nextStore := t.nextStore + 1)
  }

  /** Inserting a row that exists already is ignored and does not count. */
  function AddBlob(t: Tables, sid: StoreID, id: BlobID): (Tables, Outcome) {
    if (sid, id) in t.rows then (t, Done)
    else if sid !in t.stores || id !in t.blobs then (t, NotFound)
    else (Count(t.(rows := t.rows + {(sid, id)}), id, 1), Done)
  }

  function PostBlob(t: Tables, sid: StoreID, id: BlobID, data: string): (Tables, Outcome) {
    if |data| > MAX_BLOB_SIZE then (t, TooLarge)
    else
      var t1 := if id in t.blobs then t else t.(blobs := t.blobs[id := Blob(data, 0)]);
      var (t2, out) := AddBlob(t1, sid, id);
      if out == Done then (t2, Done) else (t, out)
  }

  /** Store 0 stands for all blobs in the membership test. */
  function StoreContains(t: Tables, sid: StoreID, id: BlobID): bool {
    if sid == 0 then id in t.blobs else (sid, id) in t.rows
  }

  function DeleteBlob(t: Tables, sid: StoreID, id: BlobID): (Tables, Outcome) {
    var t1 := if StoreContains(t, sid, id) then Count(t.(rows := t.rows - {(sid, id)}), id, -1) else t;
    if id !in t1.blobs then (t, NotFound)
    else if t1.blobs[id].rc != 0 then (t1, Done)
    else if Holders(t1.rows, id) != {} then (t, ForeignKeyViolation)
    else (t1.(blobs := t1.blobs - {id}), Done)
  }

  function DropStore(t: Tables, sid: StoreID): Tables {
    t.(blobs := map id | id in t.blobs :: if (sid, id) in t.rows then t.blobs[id].(rc := t.blobs[id].rc - 1) else t.blobs[id],
       rows := t.rows - RowsOf(t.rows, sid),
       stores := t.stores - {sid})
  }

  /** Copies rows without counting them. */
  function CopyAll(t: Tables, src: StoreID, dst: StoreID): (Tables, Outcome) {
    var copied := set r | r in t.rows && r.0 == src :: (dst, r.1);
    if dst !in t.stores && copied != {} then (t, ForeignKeyViolation) else (t.(rows := t.rows + copied), Done)
  }

  // ----- what each operation does to the holders -----

  lemma HoldersOfMore(rows: set<(StoreID, BlobID)>, sid: StoreID, id: BlobID, b: BlobID)
    ensures Holders(rows + {(sid, id)}, b) == Holders(rows, b) + if b == id then {sid} else {}
  {
    forall s ensures s in Holders(rows + {(sid, id)}, b) <==> s in Holders(rows, b) || (s == sid && b == id) {
      assert s in Holders(rows + {(sid, id)}, b) <==> (s, b) in rows + {(sid, id)};
      assert s in Holders(rows, b) <==> (s, b) in rows;
    }
  }

  lemma HoldersOfLess(rows: set<(StoreID, BlobID)>, sid: StoreID, id: BlobID, b: BlobID)
    ensures Holders(rows - {(sid, id)}, b) == Holders(rows, b) - if b == id then {sid} else {}
  {
    forall s ensures s in Holders(rows - {(sid, id)}, b) <==> s in Holders(rows, b) && !(s == sid && b == id) {
      assert s in Holders(rows - {(sid, id)}, b) <==> (s, b) in rows - {(sid, id)};
      assert s in Holders(rows, b) <==> (s, b) in rows;
    }
  }

  /** The stored data: what the blobs are, whatever their counts. */
  ghost predicate SameData(before: map<BlobID, Blob>, after: map<BlobID, Blob>, ids: set<BlobID>) {
    forall b :: b in ids && b in before ==> b in after && after[b].data == before[b].data
  }

  /** Adding succeeds exactly if the store holds the blob already or both exist; then the store is among
      the blob's holders afterwards and nothing else has changed. */
  lemma AddHolders(t: Tables, sid: StoreID, id: BlobID)
    ensures
      var (t', out) := AddBlob(t, sid, id);
      && (out == Done <==> sid in Holders(t.rows, id) || (sid in t.stores && id in t.blobs))
      && (out == Done ==> forall b :: Holders(t'.rows, b) == Holders(t.rows, b) + if b == id then {sid} else {})
      && (out != Done ==> out == NotFound && t' == t)
      && t'.stores == t.stores && t'.blobs.Keys == t.blobs.Keys && SameData(t.blobs, t'.blobs, t.blobs.Keys)
  {
    assert sid in Holders(t.rows, id) <==> (sid, id) in t.rows;
    forall b ensures Holders(t.rows + {(sid, id)}, b) == Holders(t.rows, b) + if b == id then {sid} else {} {
      HoldersOfMore(t.rows, sid, id, b);
    }
    assert (sid, id) in t.rows ==> t.rows + {(sid, id)} == t.rows;
  }

  /** Posting succeeds exactly if the data is small enough and the store exists or holds the blob; then the
      store is among the holders, and the data is there under its identifier. */
  lemma PostHolders(t: Tables, sid: StoreID, id: BlobID, data: string)
    ensures
      var (t', out) := PostBlob(t, sid, id, data);
      && (out == Done <==> |data| <= MAX_BLOB_SIZE && (sid in Holders(t.rows, id) || sid in t.stores))
      && (out == Done ==>
            && (forall b :: Holders(t'.rows, b) == Holders(t.rows, b) + if b == id then {sid} else {})
            && t'.blobs.Keys == t.blobs.Keys + {id}
            && (id !in t.blobs ==> t'.blobs[id].data == data))
      && (out != Done ==> t' == t && out == if |data| > MAX_BLOB_SIZE then TooLarge else NotFound)
      && t'.stores == t.stores && SameData(t.blobs, t'.blobs, t.blobs.Keys)
  {
    var t1 := if id in t.blobs then t else t.(blobs := t.blobs[id := Blob(data, 0)]);
    AddHolders(t1, sid, id);
  }

  /** Deleting, with exact counts and from a store that can exist, takes exactly the store from the blob's
      holders, and takes the blob exactly if nobody holds it then; it fails exactly if there is no blob. */
  lemma DeleteHolders(t: Tables, sid: StoreID, id: BlobID)
    requires Referential(t) && Conserved(t) && sid != 0
    ensures
      var (t', out) := DeleteBlob(t, sid, id);
      && (out == Done <==> id in t.blobs) && (out != Done ==> out == NotFound && t' == t)
      && (forall b :: Holders(t'.rows, b) == Holders(t.rows, b) - if b == id then {sid} else {})
      && (forall b :: b in t'.blobs <==> b in t.blobs && (b == id ==> Holders(t'.rows, id) != {}))
      && t'.stores == t.stores && SameData(t.blobs, t'.blobs, t'.blobs.Keys)
  {
    hide Holders, Referential, Conserved, DeleteBlob;
    var rows := t.rows - {(sid, id)};
    DeleteCases(t, sid, id);
    forall b ensures Holders(rows, b) == Holders(t.rows, b) - if b == id then {sid} else {} {
      HoldersOfLess(t.rows, sid, id, b);
    }
  }

  lemma DeleteCases(t: Tables, sid: StoreID, id: BlobID)
    requires Referential(t) && Conserved(t) && sid != 0
    ensures
      var (t', out) := DeleteBlob(t, sid, id);
      && t'.rows == t.rows - {(sid, id)} && t'.stores == t.stores
      && (out == Done <==> id in t.blobs) && (out != Done ==> out == NotFound && t' == t)
      && (forall b :: b in t'.blobs <==> b in t.blobs && (b == id ==> Holders(t'.rows, id) != {}))
      && SameData(t.blobs, t'.blobs, t'.blobs.Keys)
  {
    hide Holders;
    var rows := t.rows - {(sid, id)};
    if (sid, id) in t.rows {
      HoldersRemove(t.rows, sid, id, id);
      assert (sid, id).1 in t.blobs;
    } else {
      assert rows == t.rows;
    }
  }

  // ----- conservation -----

  lemma AddConserves(t: Tables, sid: StoreID, id: BlobID)
    requires Referential(t)
    ensures Referential(AddBlob(t, sid, id).0)
    ensures Conserved(t) ==> Conserved(AddBlob(t, sid, id).0)
    ensures NotOvercounted(t) ==> NotOvercounted(AddBlob(t, sid, id).0)
  {
    if (sid, id) !in t.rows {
      forall other | other in t.blobs
        ensures |Holders(t.rows + {(sid, id)}, other)| == |Holders(t.rows, other)| + if other == id then 1 else 0
      {
        HoldersAdd(t.rows, sid, id, other);
      }
    }
  }

  lemma PostConserves(t: Tables, sid: StoreID, id: BlobID, data: string)
    requires Referential(t)
    ensures Referential(PostBlob(t, sid, id, data).0)
    ensures Conserved(t) ==> Conserved(PostBlob(t, sid, id, data).0)
    ensures NotOvercounted(t) ==> NotOvercounted(PostBlob(t, sid, id, data).0)
  {
    var t1 := if id in t.blobs then t else t.(blobs := t.blobs[id := Blob(data, 0)]);
    if id !in t.blobs { assert Holders(t.rows, id) == {}; }
    AddConserves(t1, sid, id);
  }

  /** Deleting removes a blob only when no store holds it, and keeps the count exact for every store
      that can exist. */
  lemma DeleteConserves(t: Tables, sid: StoreID, id: BlobID)
    requires Referential(t)
    ensures
      var t' := DeleteBlob(t, sid, id).0;
      && Referential(t')
      && (id in t.blobs && id !in t'.blobs ==> Holders(t'.rows, id) == {})
      && (Conserved(t) && sid != 0 ==> Conserved(t'))
      && (NotOvercounted(t) ==> NotOvercounted(t'))
  {
    var rows := t.rows - {(sid, id)};
    var t' := DeleteBlob(t, sid, id).0;
    if (sid, id) in t.rows {
      forall other ensures |Holders(rows, other)| == |Holders(t.rows, other)| - if other == id then 1 else 0 {
        HoldersRemove(t.rows, sid, id, other);
      }
    } else {
      assert rows == t.rows;
    }
    if id in t.blobs && id !in t'.blobs {
      assert forall r :: r in t'.rows && r.1 == id ==> r.0 in Holders(t'.rows, id);
    }
  }

  lemma DropConserves(t: Tables, sid: StoreID)
    requires Referential(t)
    ensures Referential(DropStore(t, sid))
    ensures Conserved(t) ==> Conserved(DropStore(t, sid))
    ensures NotOvercounted(t) ==> NotOvercounted(DropStore(t, sid))
  {
    forall id ensures |Holders(t.rows - RowsOf(t.rows, sid), id)| == |Holders(t.rows, id)| - if (sid, id) in t.rows then 1 else 0 {
      HoldersDrop(t.rows, sid, id);
    }
  }

  /** Deleting from store 0 counts down without removing a row: it goes wrong exactly when the blob
      exists and the number of its holders is not one (with one, the drop fails and is undone). */
  lemma DeleteFromStoreZero(t: Tables, id: BlobID)
    requires Referential(t) && Conserved(t)
    ensures Conserved(DeleteBlob(t, 0, id).0) <==> id !in t.blobs || |Holders(t.rows, id)| == 1
  {
    assert (0, id) !in t.rows;
    assert t.rows - {(0, id)} == t.rows;
    if id in t.blobs {
      var t' := DeleteBlob(t, 0, id).0;
      if |Holders(t.rows, id)| != 1 {
        assert id in t'.blobs && t'.blobs[id].rc == t.blobs[id].rc - 1;
      }
    }
  }

  /** Dropping a store takes it, and only it, from the holders of every blob. */
  lemma DropHolders(t: Tables, sid: StoreID)
    ensures forall id :: Holders(DropStore(t, sid).rows, id) == Holders(t.rows, id) - {sid}
  {
    var left := DropStore(t, sid).rows;
    forall id ensures Holders(left, id) == Holders(t.rows, id) - {sid} {
      forall s ensures s in Holders(left, id) <==> s in Holders(t.rows, id) && s != sid {
        assert s in Holders(left, id) <==> (s, id) in left;
        assert s in Holders(t.rows, id) <==> (s, id) in t.rows;
      }
    }
  }

  /** Copying adds the destination to the holders of every blob the source holds. */
  lemma CopyHolders(t: Tables, src: StoreID, dst: StoreID)
    requires CopyAll(t, src, dst).1 == Done
    ensures forall id ::
              Holders(CopyAll(t, src, dst).0.rows, id) == Holders(t.rows, id) + if (src, id) in t.rows then {dst} else {}
  {
    var copied := set r | r in t.rows && r.0 == src :: (dst, r.1);
    forall id ensures Holders(t.rows + copied, id) == Holders(t.rows, id) + if (src, id) in t.rows then {dst} else {} {
      if (src, id) in t.rows {
        assert (src, id).1 == id;
        assert (dst, id) in copied;
      }
      forall s ensures s in Holders(t.rows + copied, id) <==> s in Holders(t.rows, id) || (s == dst && (src, id) in t.rows) {
        assert s in Holders(t.rows + copied, id) <==> (s, id) in t.rows + copied;
        assert s in Holders(t.rows, id) <==> (s, id) in t.rows;
      }
    }
  }

  /** Copying keeps the count exact only if there is nothing new to copy. */
  lemma CopyConservesIff(t: Tables, src: StoreID, dst: StoreID)
    requires Referential(t) && Conserved(t) && dst in t.stores
    ensures Conserved(CopyAll(t, src, dst).0) <==> forall id :: (src, id) in t.rows ==> (dst, id) in t.rows
  {
    var t' := CopyAll(t, src, dst).0;
    if forall id :: (src, id) in t.rows ==> (dst, id) in t.rows {
      assert t'.rows == t.rows;
    } else {
      var id :| (src, id) in t.rows && (dst, id) !in t.rows;
      assert (src, id).1 in t.blobs;
      assert dst in Holders(t'.rows, id) && dst !in Holders(t.rows, id) && Holders(t.rows, id) <= Holders(t'.rows, id);
      SubsetSmaller(Holders(t.rows, id), Holders(t'.rows, id), dst);
    }
  }

  lemma SubsetSmaller(a: set<StoreID>, b: set<StoreID>, x: StoreID)
    requires a <= b && x in b && x !in a
    ensures |a| < |b|
  {
    assert b == a + (b - a);
    assert x in b - a;
  }

  lemma CopyFailsIff(t: Tables, src: StoreID, dst: StoreID)
    ensures CopyAll(t, src, dst).1 == ForeignKeyViolation <==> dst !in t.stores && exists id :: (src, id) in t.rows
  {
    var copied := set r | r in t.rows && r.0 == src :: (dst, r.1);
    if id :| (src, id) in t.rows { assert (dst, (src, id).1) in copied; }
    if r :| r in copied {
      var r' :| r' in t.rows && r'.0 == src && (dst, r'.1) == r;
      assert (src, r'.1) in t.rows;
    }
  }

  lemma CopyMeaning(t: Tables, src: StoreID, dst: StoreID)
    ensures
      var (t', out) := CopyAll(t, src, dst);
      && (out == ForeignKeyViolation <==> dst !in t.stores && exists id :: (src, id) in t.rows)
      && (out == Done ==> forall id :: Holders(t'.rows, id) == Holders(t.rows, id) + if (src, id) in t.rows then {dst} else {})
      && (Referential(t) && NotOvercounted(t) ==> Referential(t') && NotOvercounted(t'))
      && (Referential(t) && Conserved(t) && dst in t.stores ==>
            (Conserved(t') <==> forall id :: (src, id) in t.rows ==> (dst, id) in t.rows))
  {
    hide Holders, Referential, Conserved, NotOvercounted, CopyAll;
    CopyFailsIff(t, src, dst);
    if CopyAll(t, src, dst).1 == Done { CopyHolders(t, src, dst); }
    if Referential(t) && NotOvercounted(t) { CopyNotOvercounted(t, src, dst); }
    if Referential(t) && Conserved(t) && dst in t.stores { CopyConservesIff(t, src, dst); }
  }

  lemma CopyNotOvercounted(t: Tables, src: StoreID, dst: StoreID)
    requires Referential(t) && NotOvercounted(t)
    ensures Referential(CopyAll(t, src, dst).0) && NotOvercounted(CopyAll(t, src, dst).0)
  {
    var t' := CopyAll(t, src, dst).0;
    forall id | id in t'.blobs ensures t'.blobs[id].rc <= |Holders(t'.rows, id)| {
      assert Holders(t.rows, id) <= Holders(t'.rows, id);
      assert Holders(t'.rows, id) == Holders(t.rows, id) + (Holders(t'.rows, id) - Holders(t.rows, id));
    }
    CopyReferential(t, src, dst);
  }

  // ----- runs -----

  datatype Op =
    | Create
    | Post(sid: StoreID, id: BlobID, data: string)
    | Add(sid: StoreID, id: BlobID)
    | Delete(sid: StoreID, id: BlobID)
    | Drop(sid: StoreID)
    | Copy(src: StoreID, dst: StoreID)

  function Apply(t: Tables, op: Op): Tables {
    match op
    case Create => CreateStore(t)
    case Post(sid, id, data) => PostBlob(t, sid, id, data).0
    case Add(sid, id) => AddBlob(t, sid, id).0
    case Delete(sid, id) => DeleteBlob(t, sid, id).0
    case Drop(sid) => DropStore(t, sid)
    case Copy(src, dst) => CopyAll(t, src, dst).0
  }

  function Run(ops: seq<Op>): Tables {
    if ops == [] then EMPTY else Apply(Run(ops[..|ops| - 1]), ops[|ops| - 1])
  }

  predicate Counting(op: Op) {
    !op.Copy? && (op.Delete? ==> op.sid != 0)
  }

  lemma ApplyKeeps(t: Tables, op: Op)
    requires Referential(t)
    ensures Referential(Apply(t, op))
    ensures Conserved(t) && Counting(op) ==> Conserved(Apply(t, op))
    ensures NotOvercounted(t) ==> NotOvercounted(Apply(t, op))
  {
    match op
    case Create =>
    case Post(sid, id, data) => PostConserves(t, sid, id, data);
    case Add(sid, id) => AddConserves(t, sid, id);
    case Delete(sid, id) => DeleteConserves(t, sid, id);
    case Drop(sid) => DropConserves(t, sid);
    case Copy(src, dst) =>
      CopyReferential(t, src, dst);
      if NotOvercounted(t) { CopyNotOvercounted(t, src, dst); }
  }

  lemma CopyReferential(t: Tables, src: StoreID, dst: StoreID)
    requires Referential(t)
    ensures Referential(CopyAll(t, src, dst).0)
  {
    var copied := set r | r in t.rows && r.0 == src :: (dst, r.1);
    forall r | r in CopyAll(t, src, dst).0.rows ensures r.0 in t.stores && r.1 in t.blobs {
      if r !in t.rows { assert r in copied; }
    }
  }

  /** Over every run without copying (and without deletes from store 0) each count equals the number
      of stores holding the blob; over every run whatever, it is at most that number. */
  lemma {:induction false} RunConserves(ops: seq<Op>)
    ensures Referential(Run(ops)) && NotOvercounted(Run(ops))
    ensures (forall i :: 0 <= i < |ops| ==> Counting(ops[i])) ==> Conserved(Run(ops))
    decreases |ops|
  {
    hide Referential, NotOvercounted, Conserved, Apply, Counting;
    if ops == [] {
      EmptyConserved();
    } else {
      var init, last := ops[..|ops| - 1], ops[|ops| - 1];
      RunConserves(init);
      ApplyKeeps(Run(init), last);
      assert forall i :: 0 <= i < |init| ==> init[i] == ops[i];
    }
  }

  lemma EmptyConserved()
    ensures Referential(EMPTY) && NotOvercounted(EMPTY) && Conserved(EMPTY)
  {}

  // ----- the operations, statement by statement -----

  class ContentDB {
    var blobs: map<BlobID, Blob>
    var stores: set<StoreID>
    var rows: set<(StoreID, BlobID)>
    var nextStore: nat

    function Now(): Tables
      reads this
    {
      Tables(blobs, stores, rows, nextStore)
    }

    constructor ()
      ensures Now() == EMPTY
    {
      blobs, stores, rows, nextStore := map[], {}, {}, 1;
    }

    method NewStore() returns (sid: StoreID)
      modifies this
      ensures Now() == CreateStore(old(Now())) && sid == old(nextStore)
      ensures Referential(old(Now())) ==> Referential(Now()) && sid !in old(stores) && RowsOf(rows, sid) == {}
      ensures forall id :: Holders(rows, id) == Holders(old(rows), id)
      ensures Conserved(old(Now())) ==> Conserved(Now())
    {
      sid := nextStore;
      stores := stores + {sid};
      nextStore := nextStore + 1;
    }

    method AddCount(id: BlobID, delta: int)
      modifies this`blobs
      ensures Now() == Count(old(Now()), id, delta)
    {
      if id in blobs { blobs := blobs[id := blobs[id].(rc := blobs[id].rc + delta)]; }
    }

    method InsertRow(sid: StoreID, id: BlobID) returns (out: Outcome)
      modifies this`blobs, this`rows
      ensures (Now(), out) == AddBlob(old(Now()), sid, id)
      ensures out == Done <==> sid in Holders(old(rows), id) || (sid in stores && id in blobs)
      ensures out == Done ==> forall b :: Holders(rows, b) == Holders(old(rows), b) + if b == id then {sid} else {}
    {
      AddHolders(Now(), sid, id);
      var changes := 0;
      if (sid, id) !in rows {
        if sid !in stores || id !in blobs { return NotFound; }
        rows := rows + {(sid, id)};
        changes := 1;
      }
      AddCount(id, changes);
      assert changes == 0 ==> blobs == old(blobs);
      return Done;
    }

    method PostData(sid: StoreID, id: BlobID, data: string) returns (out: Outcome)
      modifies this`blobs, this`rows
      ensures (Now(), out) == PostBlob(old(Now()), sid, id, data)
      ensures out == Done ==> forall b :: Holders(rows, b) == Holders(old(rows), b) + if b == id then {sid} else {}
      ensures out == Done ==> id in blobs && (id !in old(blobs) ==> blobs[id].data == data)
      ensures SameData(old(blobs), blobs, old(blobs).Keys)
    {
      PostHolders(Now(), sid, id, data);
      if |data| > MAX_BLOB_SIZE { return TooLarge; }
      var saved := blobs;
      if id !in blobs { blobs := blobs[id := Blob(data, 0)]; }
      out := InsertRow(sid, id);
      if out != Done { blobs := saved; }
    }

    method Remove(sid: StoreID, id: BlobID) returns (out: Outcome)
      modifies this`blobs, this`rows
      ensures (Now(), out) == DeleteBlob(old(Now()), sid, id)
      ensures Referential(old(Now())) && Conserved(old(Now())) && sid != 0 ==>
                forall b :: Holders(rows, b) == Holders(old(rows), b) - if b == id then {sid} else {}
      ensures Referential(old(Now())) && Conserved(old(Now())) && sid != 0 ==>
                forall b :: b in blobs <==> b in old(blobs) && (b == id ==> Holders(rows, id) != {})
    {
      if Referential(Now()) && Conserved(Now()) && sid != 0 { DeleteHolders(Now(), sid, id); }
      var savedBlobs, savedRows := blobs, rows;
      if StoreContains(Now(), sid, id) {
        rows := rows - {(sid, id)};
        AddCount(id, -1);
      }
      if id !in blobs {
        blobs, rows := savedBlobs, savedRows;
        return NotFound;
      }
      if blobs[id].rc == 0 {
        if Holders(rows, id) != {} {
          blobs, rows := savedBlobs, savedRows;
          return ForeignKeyViolation;
        }
        blobs := blobs - {id};
      }
      return Done;
    }

    method RemoveStore(sid: StoreID)
      modifies this
      ensures Now() == DropStore(old(Now()), sid)
      ensures sid !in stores && blobs.Keys == old(blobs).Keys
      ensures forall id :: Holders(rows, id) == Holders(old(rows), id) - {sid}
      ensures Referential(old(Now())) ==> Referential(Now())
      ensures Referential(old(Now())) && Conserved(old(Now())) ==> Conserved(Now())
    {
      hide Holders, Referential, Conserved;
      DropHolders(Now(), sid);
      if Referential(Now()) { DropConserves(Now(), sid); }
      blobs := map id | id in blobs :: if (sid, id) in rows then blobs[id].(rc := blobs[id].rc - 1) else blobs[id];
      rows := rows - RowsOf(rows, sid);
      stores := stores - {sid};
    }

    method CopyRows(src: StoreID, dst: StoreID) returns (out: Outcome)
      modifies this`rows
      ensures (Now(), out) == CopyAll(old(Now()), src, dst)
      ensures out == ForeignKeyViolation <==> dst !in stores && exists id :: (src, id) in old(rows)
      ensures out == ForeignKeyViolation ==> rows == old(rows)
      ensures out != ForeignKeyViolation ==> out == Done
      ensures out == Done ==> forall id ::
                Holders(rows, id) == Holders(old(rows), id) + if (src, id) in old(rows) then {dst} else {}
      ensures Referential(old(Now())) && NotOvercounted(old(Now())) ==> Referential(Now()) && NotOvercounted(Now())
      ensures Referential(old(Now())) && Conserved(old(Now())) && dst in stores ==>
                (Conserved(Now()) <==> forall id :: (src, id) in old(rows) ==> (dst, id) in old(rows))
    {
      hide Holders, Referential, Conserved, NotOvercounted;
      CopyMeaning(Now(), src, dst);
      var copied := set r | r in rows && r.0 == src :: (dst, r.1);
      if dst !in stores && copied != {} { return ForeignKeyViolation; }
      rows := rows + copied;
      return Done;
    }
  }
}
