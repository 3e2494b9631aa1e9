/** The objects the viewer looks at: the entries of ROOT's in-memory object
    list (gROOT->GetList()) and the keys of an open ROOT file, with the
    filters and searches the viewer performs on them. An object is known by
    its identity (its address) and by whether its class inherits from TH1. */
module Registry {

  datatype Option<T> = None | Some(value: T)

  /** The identity of a live object (its address). */
  type ObjId = nat

  /** An entry of ROOT's object list. */
  datatype Obj = Obj(id: ObjId, isTH1: bool)

  /** A key of an open ROOT file: the class name it records and what reading
      it (TKey::ReadObj) yields, None when reading fails. */
  datatype Key = Key(className: string, read: Option<ObjId>)

  /** The nine class names whose keys the viewer accepts as histograms. */
  const HistogramClasses: set<string> :=
    {"TH1F", "TH1D", "TH1I", "TH2F", "TH2D", "TH2I", "TH3F", "TH3D", "TH3I"}

  /** Live objects have distinct addresses. */
  predicate DistinctIds(reg: seq<Obj>) {
    forall i, j | 0 <= i < j < |reg| :: reg[i].id != reg[j].id
  }

  /** The object-list invariant of the viewer: live identities are distinct,
      and an entry with the displayed histogram's identity is a histogram. */
  predicate WellFormed(reg: seq<Obj>, hist: Option<ObjId>) {
    DistinctIds(reg) && (hist.Some? ==> forall o | o in reg && o.id == hist.value :: o.isTH1)
  }

  /** The identities present in a list. */
  function Ids(reg: seq<Obj>): (r: set<ObjId>) {
    set o | o in reg :: o.id
  }

  /** The identities listed in a sequence. */
  function Elems(s: seq<ObjId>): (r: set<ObjId>) {
    set x | x in s
  }

  /** Taking one more element of a sequence adds that element to its set. */
  lemma ElemsPrefix(s: seq<ObjId>, j: nat)
    requires j < |s|
    ensures Elems(s[..j + 1]) == Elems(s[..j]) + {s[j]}
  {
    assert s[..j + 1] == s[..j] + [s[j]];
  }

  /** The identities an Option pointer stands for: none for a null pointer. */
  function IdsOf(p: Option<ObjId>): (r: set<ObjId>) {
    if p.Some? then {p.value} else {}
  }

  /** A histogram other than the one kept: what the cleanup deletes. */
  predicate IsStale(o: Obj, keep: Option<ObjId>) {
    o.isTH1 && keep != Some(o.id)
  }

  /** The object list with every stale histogram taken out. */
  function Cleaned(reg: seq<Obj>, keep: Option<ObjId>): (r: seq<Obj>)
    ensures |r| <= |reg|
    ensures forall o | o in r :: o in reg
  {
    if reg == [] then []
    else (if IsStale(reg[0], keep) then [] else [reg[0]]) + Cleaned(reg[1..], keep)
  }

  /** The identities of the stale histograms, in list order: what the first
      loop of the cleanup collects. */
  function StaleIds(reg: seq<Obj>, keep: Option<ObjId>): (r: seq<ObjId>)
    ensures |r| <= |reg|
  {
    if reg == [] then []
    else
      var last := reg[|reg| - 1];
      StaleIds(reg[..|reg| - 1], keep) + (if IsStale(last, keep) then [last.id] else [])
  }

  /** The object list without the objects whose identity is in ids. */
  function RemoveIds(reg: seq<Obj>, ids: set<ObjId>): (r: seq<Obj>) {
    if reg == [] then []
    else (if reg[0].id in ids then [] else [reg[0]]) + RemoveIds(reg[1..], ids)
  }

  /** TList::Remove: unlink the first entry with the given identity, if any. */
  function RemoveFirst(reg: seq<Obj>, id: ObjId): (r: seq<Obj>)
    ensures |r| == if id in Ids(reg) then |reg| - 1 else |reg|
    ensures forall o | o in r :: o in reg
  {
    if reg == [] then []
    else if reg[0].id == id then reg[1..]
    else [reg[0]] + RemoveFirst(reg[1..], id)
  }

  /** What is left of the object list once the stale histograms have been
      cleaned up and the displayed one has been deleted as well. */
  function Survivors(reg: seq<Obj>, hist: Option<ObjId>): (r: seq<Obj>)
    ensures forall o | o in r :: o in reg && !o.isTH1
  {
    CleanedSpec(reg, hist);
    RemoveIdsSpec(Cleaned(reg, hist), IdsOf(hist));
    RemoveIds(Cleaned(reg, hist), IdsOf(hist))
  }

  /** The last histogram of the list in list order, None if there is none. */
  function LastHist(reg: seq<Obj>): (r: Option<ObjId>)
    ensures r.Some? ==> exists o | o in reg :: o.isTH1 && o.id == r.value
  {
    if reg == [] then None
    else if reg[|reg| - 1].isTH1 then Some(reg[|reg| - 1].id)
    else LastHist(reg[..|reg| - 1])
  }

  /** What the file scan yields: the ReadObj result of the first key whose
      class name is one of HistogramClasses; None if there is no such key. */
  function FirstHistKeyRead(keys: seq<Key>): (r: Option<ObjId>)
    ensures r.Some? ==> exists k | k in keys :: k.className in HistogramClasses && k.read == r
  {
    if keys == [] then None
    else if keys[0].className in HistogramClasses then keys[0].read
    else FirstHistKeyRead(keys[1..])
  }

  /** Key k is the first key whose class name is one of HistogramClasses. */
  predicate IsFirstHistKey(keys: seq<Key>, k: int) {
    0 <= k < |keys| && keys[k].className in HistogramClasses &&
    forall j | 0 <= j < k :: keys[j].className !in HistogramClasses
  }

  /** a is b with some entries left out, the others in their original order. */
  predicate IsSubsequence(a: seq<Obj>, b: seq<Obj>) {
    if a == [] then true
    else if b == [] then false
    else if a[0] == b[0] then IsSubsequence(a[1..], b[1..])
    else IsSubsequence(a, b[1..])
  }

  /** Every histogram left in the list is the displayed one. */
  predicate OnlyHistogram(reg: seq<Obj>, hist: Option<ObjId>) {
    forall o | o in reg && o.isTH1 :: hist == Some(o.id)
  }

  // ---------------------------------------------------------------------------
  // The searches DoPlot runs over the object list and over the file's keys.

  /** The first loop of the cleanup: the identities of the stale histograms,
      collected in list order. */
  method CollectStaleIds(list: seq<Obj>, keep: Option<ObjId>) returns (ids: seq<ObjId>)
    ensures ids == StaleIds(list, keep)
  {
    ids := [];
    var i := 0;
    while i < |list|
      invariant 0 <= i <= |list|
      invariant ids == StaleIds(list[..i], keep)
    {
      assert list[..i + 1][..i] == list[..i];
      if list[i].isTH1 && keep != Some(list[i].id) {
        ids := ids + [list[i].id];
      }
      i := i + 1;
    }
    assert list[..i] == list;
  }

  /** The script branch's scan: walk the whole list and remember the last
      histogram met. */
  method FindLastHistogram(reg: seq<Obj>) returns (newHist: Option<ObjId>)
    ensures newHist == LastHist(reg)
  {
    newHist := None;
    var i := 0;
    while i < |reg|
      invariant 0 <= i <= |reg|
      invariant newHist == LastHist(reg[..i])
    {
      assert reg[..i + 1][..i] == reg[..i];
      if reg[i].isTH1 {
        newHist := Some(reg[i].id);
      }
      i := i + 1;
    }
    assert reg[..i] == reg;
  }

  /** The file branch's scan: stop at the first key of a histogram class and
      read it. */
  method FindFirstHistogramKey(keys: seq<Key>) returns (newHist: Option<ObjId>)
    ensures newHist == FirstHistKeyRead(keys)
  {
    newHist := None;
    var i := 0;
    while i < |keys|
      invariant 0 <= i <= |keys|
      invariant FirstHistKeyRead(keys[i..]) == FirstHistKeyRead(keys)
      invariant newHist == None
    {
      if keys[i].className in HistogramClasses {
        newHist := keys[i].read;
        break;
      }
      assert keys[i..][1..] == keys[i + 1..];
      i := i + 1;
    }
  }

  // ---------------------------------------------------------------------------
  // What the filters keep.

  /** The cleanup's result: no stale histogram remains, every other object
      does, and the survivors keep their original relative order. */
  lemma {:induction false} CleanedSpec(reg: seq<Obj>, keep: Option<ObjId>)
    ensures forall o | o in Cleaned(reg, keep) :: o in reg && !IsStale(o, keep)
    ensures forall o | o in reg && !IsStale(o, keep) :: o in Cleaned(reg, keep)
    ensures IsSubsequence(Cleaned(reg, keep), reg)
  {
    if reg != [] {
      CleanedSpec(reg[1..], keep);
      var rest := Cleaned(reg[1..], keep);
      if IsStale(reg[0], keep) {
        assert Cleaned(reg, keep) == rest;
        SubsequenceSkip(rest, reg);
      } else {
        assert Cleaned(reg, keep) == [reg[0]] + rest;
        assert ([reg[0]] + rest)[1..] == rest;
      }
    }
  }

  /** A subsequence of the tail of b is a subsequence of b. */
  lemma {:induction false} SubsequenceSkip(a: seq<Obj>, b: seq<Obj>)
    requires b != [] && IsSubsequence(a, b[1..])
    ensures IsSubsequence(a, b)
  {
    if a != [] && a[0] == b[0] {
      SubsequenceTail(a, b[1..]);
    }
  }

  /** Dropping the head of a non-empty subsequence keeps it a subsequence. */
  lemma {:induction false} SubsequenceTail(a: seq<Obj>, b: seq<Obj>)
    requires a != [] && IsSubsequence(a, b)
    ensures IsSubsequence(a[1..], b)
  {
    if a[0] == b[0] {
      if a[1..] != [] {
        SubsequenceSkip(a[1..], b);
      }
    } else {
      SubsequenceTail(a, b[1..]);
      SubsequenceSkip(a[1..], b);
    }
  }

  /** Taking out objects by identity leaves exactly the others. */
  lemma {:induction false} RemoveIdsSpec(reg: seq<Obj>, ids: set<ObjId>)
    ensures forall o | o in RemoveIds(reg, ids) :: o in reg && o.id !in ids
    ensures forall o | o in reg && o.id !in ids :: o in RemoveIds(reg, ids)
  {
    if reg != [] {
      RemoveIdsSpec(reg[1..], ids);
    }
  }

  /** With no identity to take out, nothing is taken out. */
  lemma {:induction false} RemoveNoIds(reg: seq<Obj>)
    ensures RemoveIds(reg, {}) == reg
  {
    if reg != [] {
      RemoveNoIds(reg[1..]);
    }
  }

  /** Taking out one more identity after a set of them is taking out the union. */
  lemma {:induction false} RemoveIdsTwice(reg: seq<Obj>, ids: set<ObjId>, more: set<ObjId>)
    ensures RemoveIds(RemoveIds(reg, ids), more) == RemoveIds(reg, ids + more)
  {
    if reg != [] {
      RemoveIdsTwice(reg[1..], ids, more);
      var rest := RemoveIds(reg[1..], ids);
      if reg[0].id !in ids {
        assert RemoveIds(reg, ids) == [reg[0]] + rest;
        assert ([reg[0]] + rest)[1..] == rest;
        assert ([reg[0]] + rest)[0] == reg[0];
      } else {
        assert RemoveIds(reg, ids) == rest;
      }
    }
  }

  /** A list whose entries are pairwise distinct, viewed from its head. */
  lemma DistinctIdsCons(reg: seq<Obj>)
    requires reg != []
    ensures DistinctIds(reg) <==> reg[0].id !in Ids(reg[1..]) && DistinctIds(reg[1..])
  {
  }

  /** Under distinct identities, TList::Remove takes out every entry with
      that identity. */
  lemma {:induction false} RemoveFirstDistinct(reg: seq<Obj>, id: ObjId)
    requires DistinctIds(reg)
    ensures RemoveFirst(reg, id) == RemoveIds(reg, {id})
  {
    if reg != [] {
      DistinctIdsCons(reg);
      if reg[0].id == id {
        RemoveIdsSpec(reg[1..], {});
        RemoveNoIds(reg[1..]);
        RemoveAbsent(reg[1..], id);
      } else {
        RemoveFirstDistinct(reg[1..], id);
      }
    }
  }

  /** Taking out an identity that is absent changes nothing. */
  lemma {:induction false} RemoveAbsent(reg: seq<Obj>, id: ObjId)
    requires id !in Ids(reg)
    ensures RemoveIds(reg, {id}) == reg
  {
    if reg != [] {
      assert reg[0] in reg;
      assert Ids(reg[1..]) <= Ids(reg) by {
        forall o | o in reg[1..] ensures o in reg { }
      }
      RemoveAbsent(reg[1..], id);
      assert [reg[0]] + reg[1..] == reg;
    }
  }

  /** Filtering keeps identities distinct. */
  lemma {:induction false} RemoveIdsDistinct(reg: seq<Obj>, ids: set<ObjId>)
    requires DistinctIds(reg)
    ensures DistinctIds(RemoveIds(reg, ids))
  {
    if reg != [] {
      DistinctIdsCons(reg);
      RemoveIdsDistinct(reg[1..], ids);
      RemoveIdsSpec(reg[1..], ids);
      var rest := RemoveIds(reg[1..], ids);
      if reg[0].id !in ids {
        var r := [reg[0]] + rest;
        assert r[1..] == rest;
        assert reg[0].id !in Ids(rest) by {
          forall o | o in rest ensures o.id != reg[0].id {
            assert o in reg[1..];
          }
        }
        DistinctIdsCons(r);
      }
    }
  }

  /** The cleanup keeps identities distinct. */
  lemma {:induction false} CleanedDistinct(reg: seq<Obj>, keep: Option<ObjId>)
    requires DistinctIds(reg)
    ensures DistinctIds(Cleaned(reg, keep))
  {
    if reg != [] {
      DistinctIdsCons(reg);
      CleanedDistinct(reg[1..], keep);
      CleanedSpec(reg[1..], keep);
      var rest := Cleaned(reg[1..], keep);
      if !IsStale(reg[0], keep) {
        var r := [reg[0]] + rest;
        assert r[1..] == rest;
        assert reg[0].id !in Ids(rest) by {
          forall o | o in rest ensures o.id != reg[0].id {
            assert o in reg[1..];
          }
        }
        DistinctIdsCons(r);
      }
    }
  }

  /** The identities the first loop collects are those of the stale histograms. */
  lemma {:induction false} StaleIdsSpec(reg: seq<Obj>, keep: Option<ObjId>)
    ensures forall x :: x in StaleIds(reg, keep) <==> exists o | o in reg :: IsStale(o, keep) && o.id == x
  {
    if reg != [] {
      var init := reg[..|reg| - 1];
      var last := reg[|reg| - 1];
      StaleIdsSpec(init, keep);
      assert reg == init + [last];
      forall x | x in StaleIds(reg, keep)
        ensures exists o | o in reg :: IsStale(o, keep) && o.id == x
      {
        if x in StaleIds(init, keep) {
          var o :| o in init && IsStale(o, keep) && o.id == x;
          assert o in reg;
        } else {
          assert last in reg;
        }
      }
      forall x | exists o | o in reg :: IsStale(o, keep) && o.id == x
        ensures x in StaleIds(reg, keep)
      {
        var o :| o in reg && IsStale(o, keep) && o.id == x;
        if o != last {
          assert o in init;
        }
      }
    }
  }

  /** Taking out the collected identities, under distinct identities, is the
      cleanup: the two loops of CleanupPreviousHistograms compute Cleaned. */
  lemma RemoveStaleIsCleaned(reg: seq<Obj>, keep: Option<ObjId>)
    requires DistinctIds(reg)
    ensures RemoveIds(reg, Elems(StaleIds(reg, keep))) == Cleaned(reg, keep)
  {
    StaleIdsSpec(reg, keep);
    var ids := Elems(StaleIds(reg, keep));
    forall o | o in reg ensures o.id in ids <==> IsStale(o, keep) {
      if o.id in ids {
        var p :| p in reg && IsStale(p, keep) && p.id == o.id;
        SameIdSameObj(reg, o, p);
      }
    }
    RemoveMatchesCleaned(reg, ids, keep);
  }

  /** Under distinct identities, two entries with one identity are one entry. */
  lemma SameIdSameObj(reg: seq<Obj>, o: Obj, p: Obj)
    requires DistinctIds(reg) && o in reg && p in reg && o.id == p.id
    ensures o == p
  {
  }

  /** Filtering by identity and by staleness agree when the identities taken
      out are exactly those of the stale entries. */
  lemma {:induction false} RemoveMatchesCleaned(reg: seq<Obj>, ids: set<ObjId>, keep: Option<ObjId>)
    requires forall o | o in reg :: o.id in ids <==> IsStale(o, keep)
    ensures RemoveIds(reg, ids) == Cleaned(reg, keep)
  {
    if reg != [] {
      assert reg[0] in reg;
      assert forall o | o in reg[1..] :: o in reg;
      RemoveMatchesCleaned(reg[1..], ids, keep);
    }
  }

  /** Identities stay distinct when fresh objects are appended. */
  lemma AppendDistinct(a: seq<Obj>, b: seq<Obj>)
    requires DistinctIds(a) && DistinctIds(b)
    requires forall o | o in b :: o.id !in Ids(a)
    ensures DistinctIds(a + b)
  {
  }

  // ---------------------------------------------------------------------------
  // The two searches, characterised by positions.

  /** LastHist finds the histogram with no histogram after it, and finds none
      exactly when the list holds no histogram. */
  lemma {:induction false} LastHistSpec(reg: seq<Obj>)
    ensures LastHist(reg).None? <==> forall o | o in reg :: !o.isTH1
    ensures LastHist(reg).Some? ==>
      exists k | 0 <= k < |reg| :: reg[k].isTH1 && reg[k].id == LastHist(reg).value &&
        forall j | k < j < |reg| :: !reg[j].isTH1
  {
    if reg != [] {
      var init := reg[..|reg| - 1];
      LastHistSpec(init);
      assert reg == init + [reg[|reg| - 1]];
      if !reg[|reg| - 1].isTH1 {
        if LastHist(init).Some? {
          var k :| 0 <= k < |init| && init[k].isTH1 && init[k].id == LastHist(init).value &&
            forall j | k < j < |init| :: !init[j].isTH1;
          assert reg[k] == init[k];
        }
      }
    }
  }

  /** A prefix without histograms does not affect the last-histogram search. */
  lemma {:induction false} LastHistAfterClean(a: seq<Obj>, b: seq<Obj>)
    requires forall o | o in a :: !o.isTH1
    ensures LastHist(a + b) == LastHist(b)
  {
    if b == [] {
      assert a + b == a;
      LastHistSpec(a);
    } else {
      var init := b[..|b| - 1];
      LastHistAfterClean(a, init);
      assert (a + b)[..|a + b| - 1] == a + init;
    }
  }

  /** The file scan returns what reading the first key of a histogram class
      yields, whether that read succeeds or fails; it yields nothing when no
      key has such a class. */
  lemma {:induction false} FirstHistKeySpec(keys: seq<Key>)
    ensures (forall k | 0 <= k < |keys| :: keys[k].className !in HistogramClasses) ==>
      FirstHistKeyRead(keys) == None
    ensures forall k | IsFirstHistKey(keys, k) :: FirstHistKeyRead(keys) == keys[k].read
    ensures FirstHistKeyRead(keys).Some? ==>
      exists k | IsFirstHistKey(keys, k) :: keys[k].read == FirstHistKeyRead(keys)
  {
    if keys != [] {
      FirstHistKeySpec(keys[1..]);
      forall k | IsFirstHistKey(keys, k) ensures FirstHistKeyRead(keys) == keys[k].read {
        if k > 0 {
          assert keys[0].className !in HistogramClasses;
          assert IsFirstHistKey(keys[1..], k - 1) by {
            forall j | 0 <= j < k - 1 ensures keys[1..][j].className !in HistogramClasses {
              assert keys[1..][j] == keys[j + 1];
            }
          }
        }
      }
      if keys[0].className in HistogramClasses {
        assert IsFirstHistKey(keys, 0);
      } else if FirstHistKeyRead(keys).Some? {
        var k :| IsFirstHistKey(keys[1..], k) && keys[1..][k].read == FirstHistKeyRead(keys[1..]);
        assert keys[k + 1] == keys[1..][k];
        forall j | 0 <= j < k + 1 ensures keys[j].className !in HistogramClasses {
          if j > 0 {
            assert keys[j] == keys[1..][j - 1];
          }
        }
        assert IsFirstHistKey(keys, k + 1);
      }
    }
  }

  /** Only the first histogram-class key matters: a key of a histogram class
      hides every key behind it. */
  lemma FirstHistKeyStops(keys: seq<Key>, k: nat, rest: seq<Key>)
    requires k < |keys| && keys[k].className in HistogramClasses
    ensures FirstHistKeyRead(keys[..k + 1] + rest) == FirstHistKeyRead(keys)
  {
    if k > 0 {
      assert (keys[..k + 1] + rest)[1..] == keys[1..][..k] + rest;
      FirstHistKeyStops(keys[1..], k - 1, rest);
    }
  }

  /** Once the displayed histogram is deleted as well, no histogram remains. */
  lemma SurvivorsHaveNoHistogram(reg: seq<Obj>, hist: Option<ObjId>)
    ensures forall o | o in Survivors(reg, hist) :: !o.isTH1
    ensures forall o | o in reg && !o.isTH1 && o.id !in IdsOf(hist) :: o in Survivors(reg, hist)
    ensures WellFormed(reg, hist) ==> forall o | o in reg && !o.isTH1 :: o in Survivors(reg, hist)
    ensures forall o | o in Survivors(reg, hist) :: o in reg
  {
    CleanedSpec(reg, hist);
    RemoveIdsSpec(Cleaned(reg, hist), IdsOf(hist));
  }

  // ---------------------------------------------------------------------------
  // The object-list invariant.

  /** The cleanup keeps the invariant: it only drops entries. */
  lemma CleanedWellFormed(reg: seq<Obj>, keep: Option<ObjId>)
    requires WellFormed(reg, keep)
    ensures WellFormed(Cleaned(reg, keep), keep)
  {
    CleanedDistinct(reg, keep);
    CleanedSpec(reg, keep);
  }

  /** Deleting objects keeps the invariant, for any displayed histogram. */
  lemma RemoveIdsWellFormed(reg: seq<Obj>, hist: Option<ObjId>, ids: set<ObjId>)
    requires WellFormed(reg, hist)
    ensures WellFormed(RemoveIds(reg, ids), hist)
  {
    RemoveIdsDistinct(reg, ids);
    RemoveIdsSpec(reg, ids);
  }

  /** Displaying the last histogram of a list with distinct identities
      satisfies the invariant. */
  lemma LastHistWellFormed(reg: seq<Obj>)
    requires DistinctIds(reg) && LastHist(reg).Some?
    ensures WellFormed(reg, LastHist(reg))
  {
    LastHistSpec(reg);
    var k :| 0 <= k < |reg| && reg[k].isTH1 && reg[k].id == LastHist(reg).value &&
      forall j | k < j < |reg| :: !reg[j].isTH1;
    forall o | o in reg && o.id == LastHist(reg).value ensures o.isTH1 {
      assert reg[k] in reg;
      SameIdSameObj(reg, o, reg[k]);
    }
  }
}
