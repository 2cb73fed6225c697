/** The ACL rights cache of the ACL plugin (src/plugins/acl/acl-cache.c).

    Right names are interned into dense indices that never move; a set of
    rights is a byte bitmask over those indices; every object (mailbox) has,
    per identifier type, a positive and a negative mask, and a cached union of
    them ("my current rights") that is dropped whenever a mask changes and
    rebuilt on demand. */
module AclCache {
  import opened Text

  /** struct acl_mask: its `size` is the length of the sequence. */
  type Mask = seq<bv8>

  /** CHAR_BIT */
  const CharBit: nat := 8

  /** enum acl_id_type, the identifier kinds acl_cache_update distinguishes. */
  datatype AclIdType = Anyone | Authenticated | Group | GroupOverride | User

  /** ACL_ID_TYPE_COUNT: the number of per-type mask slots of an object. */
  const IdTypeCount: nat := 5

  function IdTypeIndex(t: AclIdType): (i: nat)
    ensures i < IdTypeCount
  {
    match t
    case Anyone => 0
    case Authenticated => 1
    case Group => 2
    case GroupOverride => 3
    case User => 4
  }

  /** enum acl_modify_mode */
  datatype ModifyMode = Add | Remove | Replace

  /** struct acl_rights: one ACL entry as the backend reports it. A NULL
      rights list is None. */
  datatype AclRights = AclRights(
    idType: AclIdType,
    identifier: string,
    modifyMode: ModifyMode,
    rights: Option<seq<string>>,
    negModifyMode: ModifyMode,
    negRights: Option<seq<string>>)

  /** The three backend queries the cache makes, as uninterpreted values:
      acl_backend_user_is_authenticated, acl_backend_user_is_in_group and
      acl_backend_user_name_equals. */
  datatype Backend = Backend(
    userIsAuthenticated: bool,
    userIsInGroup: string -> bool,
    userNameEquals: string -> bool)

  /** struct acl_object_cache: the masks of one object, each slot indexed by
      IdTypeIndex, and the cached current rights. */
  datatype ObjectCache = ObjectCache(
    myRights: seq<Option<Mask>>,
    myNegRights: seq<Option<Mask>>,
    myCurrentRights: Option<Mask>)

  /** A fresh object entry: every slot NULL, nothing cached (i_new zeroes it). */
  function NewObjectCache(): (o: ObjectCache)
    ensures |o.myRights| == IdTypeCount && |o.myNegRights| == IdTypeCount
    ensures forall i :: 0 <= i < IdTypeCount ==> o.myRights[i] == None && o.myNegRights[i] == None
    ensures o.myCurrentRights == None
  {
    ObjectCache([None, None, None, None, None], [None, None, None, None, None], None)
  }

  // ---------------------------------------------------------------------
  // Bitmasks

  /** Bit `k` of a mask: bit k % 8 of byte k / 8. */
  predicate BitSet(m: Mask, k: nat)
  {
    k / CharBit < |m| && m[k / CharBit] & ((1 as bv8) << (k % CharBit)) != 0
  }

  /** The byte at `i`, reading past the end as zero. */
  function ByteAt(m: Mask, i: nat): bv8
  {
    if i < |m| then m[i] else 0
  }

  function Max(a: nat, b: nat): nat
  {
    if a >= b then a else b
  }

  /** buffer_get_space_unsafe(buf, pos, size) of a zero-filled dynamic
      buffer: the buffer grows to at least pos + size bytes, new bytes zero. */
  function GetSpace(buf: Mask, pos: nat, size: nat): (r: Mask)
    ensures |r| == Max(|buf|, pos + size)
    ensures forall i :: 0 <= i < |r| ==> r[i] == ByteAt(buf, i)
  {
    if pos + size <= |buf| then buf else buf + seq(pos + size - |buf|, _ => 0 as bv8)
  }

  /** Bytewise OR of two masks, as long as the longer one. */
  function OrMask(a: Mask, b: Mask): (r: Mask)
  {
    seq(Max(|a|, |b|), i requires 0 <= i < Max(|a|, |b|) => ByteAt(a, i) | ByteAt(b, i))
  }

  /** `a[i] &= ~b[i]` for every byte both masks have; `a`'s size is kept. */
  function ClearMask(a: Mask, b: Mask): (r: Mask)
  {
    seq(|a|, i requires 0 <= i < |a| => if i < |b| then a[i] & !b[i] else a[i])
  }

  lemma ByteBitOr(x: bv8, y: bv8, s: nat)
    requires s < 8
    ensures (x | y) & ((1 as bv8) << s) != 0 <==> x & ((1 as bv8) << s) != 0 || y & ((1 as bv8) << s) != 0
  {
  }

  lemma ByteBitClear(x: bv8, y: bv8, s: nat)
    requires s < 8
    ensures (x & !y) & ((1 as bv8) << s) != 0 <==> x & ((1 as bv8) << s) != 0 && y & ((1 as bv8) << s) == 0
  {
  }

  /** The OR of two masks holds exactly the rights of either. */
  lemma OrMaskBits(a: Mask, b: Mask, k: nat)
    ensures |OrMask(a, b)| == Max(|a|, |b|)
    ensures BitSet(OrMask(a, b), k) <==> BitSet(a, k) || BitSet(b, k)
  {
    var i := k / CharBit;
    if i < Max(|a|, |b|) {
      ByteBitOr(ByteAt(a, i), ByteAt(b, i), k % CharBit);
    }
  }

  /** Clearing keeps exactly the rights of `a` that `b` does not hold. */
  lemma ClearMaskBits(a: Mask, b: Mask, k: nat)
    ensures |ClearMask(a, b)| == |a|
    ensures BitSet(ClearMask(a, b), k) <==> BitSet(a, k) && !BitSet(b, k)
  {
    var i := k / CharBit;
    if i < |a| && i < |b| {
      ByteBitClear(a[i], b[i], k % CharBit);
    }
  }

  /** `*p |= 1 << (idx % CHAR_BIT)` on the byte idx / CHAR_BIT, after growing
      the buffer to reach it. */
  function SetBit(m: Mask, idx: nat): (r: Mask)
  {
    var grown := GetSpace(m, idx / CharBit, 1);
    grown[idx / CharBit := grown[idx / CharBit] | ((1 as bv8) << (idx % CharBit))]
  }

  /** The bitmask acl_cache_mask_init builds from a list of right indices. */
  function MaskOfIndices(idxs: seq<nat>): Mask
  {
    if idxs == [] then [] else SetBit(MaskOfIndices(idxs[..|idxs| - 1]), idxs[|idxs| - 1])
  }

  /** The bytes the indices occupy: byte idx / 8 is the last one used. */
  function UsedBytes(idxs: seq<nat>): nat
  {
    if idxs == [] then 0 else Max(UsedBytes(idxs[..|idxs| - 1]), idxs[|idxs| - 1] / CharBit + 1)
  }

  lemma SetBitBits(m: Mask, idx: nat, k: nat)
    ensures |SetBit(m, idx)| == Max(|m|, idx / CharBit + 1)
    ensures BitSet(SetBit(m, idx), k) <==> BitSet(m, k) || k == idx
  {
    var q := idx / CharBit;
    var grown := GetSpace(m, q, 1);
    var r := SetBit(m, idx);
    if k / CharBit == q {
      SameByteBit(grown[q], k % CharBit, idx % CharBit);
      assert k == CharBit * q + k % CharBit && idx == CharBit * q + idx % CharBit;
    } else {
      assert k != idx;
      if k / CharBit < |r| {
        assert r[k / CharBit] == ByteAt(m, k / CharBit);
      }
    }
  }

  /** Setting bit t of a byte leaves every other bit as it was. */
  lemma SameByteBit(x: bv8, s: nat, t: nat)
    requires s < 8 && t < 8
    ensures (x | ((1 as bv8) << t)) & ((1 as bv8) << s) != 0 <==> x & ((1 as bv8) << s) != 0 || s == t
  {
    ByteBitOr(x, (1 as bv8) << t, s);
    ShiftBits(s, t);
  }

  lemma ShiftBits(s: nat, t: nat)
    requires s < 8 && t < 8
    ensures ((1 as bv8) << t) & ((1 as bv8) << s) != 0 <==> s == t
  {
  }

  /** Every listed index's bit is set, no other bit is, and the mask has
      exactly the bytes the largest index needs. */
  lemma {:induction false} MaskOfIndicesBits(idxs: seq<nat>, k: nat)
    ensures |MaskOfIndices(idxs)| == UsedBytes(idxs)
    ensures BitSet(MaskOfIndices(idxs), k) <==> k in idxs
  {
    if idxs != [] {
      var init := idxs[..|idxs| - 1];
      MaskOfIndicesBits(init, k);
      SetBitBits(MaskOfIndices(init), idxs[|idxs| - 1], k);
      assert idxs == init + [idxs[|idxs| - 1]];
    }
  }

  // ---------------------------------------------------------------------
  // Right names

  /** right_idx_name_map and right_name_idx_map are mutual inverses; the
      second stores idx + 1 because the hash table cannot hold NULL. */
  predicate NamesInverse(names: seq<string>, idx: map<string, nat>)
  {
    (forall i :: 0 <= i < |names| ==> names[i] in idx && idx[names[i]] == i + 1) &&
    (forall n :: n in idx ==> 1 <= idx[n] <= |names| && names[idx[n] - 1] == n)
  }

  /** Inverse maps give every name one index: names never repeat. */
  lemma NamesInverseDistinct(names: seq<string>, idx: map<string, nat>, i: nat, j: nat)
    requires NamesInverse(names, idx)
    requires i < |names| && j < |names| && names[i] == names[j]
    ensures i == j
  {
    assert idx[names[i]] == i + 1 && idx[names[j]] == j + 1;
  }

  /** Appending names keeps the index of every name already known. */
  lemma {:induction false} ExtensionKeepsIndices(names: seq<string>, idx: map<string, nat>,
                                                 names': seq<string>, idx': map<string, nat>, n: string)
    requires NamesInverse(names, idx) && NamesInverse(names', idx')
    requires names <= names'
    requires n in idx
    ensures n in idx' && idx'[n] == idx[n]
  {
    var i := idx[n] - 1;
    assert names'[i] == names[i] == n;
  }

  /** A name is in the map exactly when it is in the array. */
  lemma NamesInverseMembers(names: seq<string>, idx: map<string, nat>, n: string)
    requires NamesInverse(names, idx)
    ensures n in idx <==> n in names
  {
    if n in idx {
      assert names[idx[n] - 1] == n;
    }
    if n in names {
      var i :| 0 <= i < |names| && names[i] == n;
      assert names[i] in idx;
    }
  }

  /** The array fixes the map: two inverse maps of one array are equal. */
  lemma NamesDetermineIndex(names: seq<string>, idx: map<string, nat>, idx': map<string, nat>)
    requires NamesInverse(names, idx) && NamesInverse(names, idx')
    ensures idx == idx'
  {
    forall n | n in idx
      ensures n in idx' && idx'[n] == idx[n]
    {
      var i := idx[n] - 1;
      assert names[i] == n;
    }
    forall n | n in idx'
      ensures n in idx
    {
      assert names[idx'[n] - 1] == n;
    }
  }

  /** The names array after acl_cache_right_lookup of each right in turn: a
      right not yet named is appended, a known one changes nothing, so only
      new rights are ever added. */
  function Interned(names: seq<string>, rs: seq<string>): (r: seq<string>)
    ensures names <= r
  {
    if rs == [] then names
    else
      var before := Interned(names, rs[..|rs| - 1]);
      if rs[|rs| - 1] in before then before else before + [rs[|rs| - 1]]
  }

  /** Interning names exactly the old names and the listed rights. */
  lemma {:induction false} InternedNames(names: seq<string>, rs: seq<string>, n: string)
    ensures n in Interned(names, rs) <==> n in names || n in rs
  {
    if rs != [] {
      var init := rs[..|rs| - 1];
      InternedNames(names, init, n);
      assert rs == init + [rs[|rs| - 1]];
    }
  }

  /** Interning rights that are all named already changes nothing. */
  lemma {:induction false} InternedKnown(names: seq<string>, rs: seq<string>)
    requires forall j :: 0 <= j < |rs| ==> rs[j] in names
    ensures Interned(names, rs) == names
  {
    if rs != [] {
      InternedKnown(names, rs[..|rs| - 1]);
    }
  }

  /** The rights an update's change list carries; NULL carries none. */
  function Listed(rights: Option<seq<string>>): seq<string>
  {
    if rights.Some? then rights.value else []
  }

  /** The index each right has in `idx` (stored values minus one). */
  function IndicesOf(idx: map<string, nat>, rs: seq<string>): (r: seq<nat>)
    requires forall j :: 0 <= j < |rs| ==> rs[j] in idx && idx[rs[j]] >= 1
    ensures |r| == |rs|
    ensures forall j :: 0 <= j < |rs| ==> r[j] == idx[rs[j]] - 1
  {
    if rs == [] then [] else IndicesOf(idx, rs[..|rs| - 1]) + [idx[rs[|rs| - 1]] - 1]
  }

  /** The mask of a list of already interned rights. */
  function MaskOfRights(idx: map<string, nat>, rs: seq<string>): Mask
    requires forall j :: 0 <= j < |rs| ==> rs[j] in idx && idx[rs[j]] >= 1
  {
    MaskOfIndices(IndicesOf(idx, rs))
  }

  /** The right names a mask stands for, read through the names array. */
  function RightsOfMask(names: seq<string>, m: Mask): set<string>
  {
    set i | 0 <= i < |names| && BitSet(m, i) :: names[i]
  }

  /** Encoding a list of rights into a mask and reading the mask back through
      the names array gives exactly the listed rights, and it keeps doing so
      after more names are appended: this is why indices must never move. */
  lemma MaskOfRightsRoundTrip(names: seq<string>, idx: map<string, nat>, rs: seq<string>,
                              names': seq<string>, idx': map<string, nat>)
    requires NamesInverse(names, idx) && NamesInverse(names', idx')
    requires names <= names'
    requires forall j :: 0 <= j < |rs| ==> rs[j] in idx
    ensures RightsOfMask(names', MaskOfRights(idx, rs)) == set j | 0 <= j < |rs| :: rs[j]
  {
    var m := MaskOfRights(idx, rs);
    forall n | n in RightsOfMask(names', m)
      ensures n in set j | 0 <= j < |rs| :: rs[j]
    {
      var i :| 0 <= i < |names'| && BitSet(m, i) && names'[i] == n;
      var j := MaskBitIsListed(names, idx, rs, names', idx', i);
    }
    forall j | 0 <= j < |rs|
      ensures rs[j] in RightsOfMask(names', m)
    {
      ListedRightHasBit(names, idx, rs, names', idx', j);
    }
  }

  lemma MaskBitIsListed(names: seq<string>, idx: map<string, nat>, rs: seq<string>,
                        names': seq<string>, idx': map<string, nat>, i: nat) returns (j: nat)
    requires NamesInverse(names, idx) && NamesInverse(names', idx')
    requires names <= names'
    requires forall j :: 0 <= j < |rs| ==> rs[j] in idx
    requires i < |names'| && BitSet(MaskOfRights(idx, rs), i)
    ensures j < |rs| && names'[i] == rs[j]
  {
    var idxs := IndicesOf(idx, rs);
    MaskOfIndicesBits(idxs, i);
    j := IndexListed(idxs, i);
    NameAtIndex(names, idx, rs[j], i);
    assert names'[i] == names[i];
  }

  lemma IndexListed(idxs: seq<nat>, i: nat) returns (j: nat)
    requires i in idxs
    ensures j < |idxs| && idxs[j] == i
  {
    j :| 0 <= j < |idxs| && idxs[j] == i;
  }

  lemma NameAtIndex(names: seq<string>, idx: map<string, nat>, n: string, i: nat)
    requires NamesInverse(names, idx)
    requires n in idx && idx[n] == i + 1
    ensures i < |names| && names[i] == n
  {
  }

  lemma ListedRightHasBit(names: seq<string>, idx: map<string, nat>, rs: seq<string>,
                          names': seq<string>, idx': map<string, nat>, j: nat)
    requires NamesInverse(names, idx) && NamesInverse(names', idx')
    requires names <= names'
    requires forall j :: 0 <= j < |rs| ==> rs[j] in idx
    requires j < |rs|
    ensures rs[j] in RightsOfMask(names', MaskOfRights(idx, rs))
  {
    var idxs := IndicesOf(idx, rs);
    var i := idx[rs[j]] - 1;
    MaskOfIndicesBits(idxs, i);
    assert idxs[j] == i;
    assert names'[i] == names[i] == rs[j];
  }

  // ---------------------------------------------------------------------
  // Mask updates

  /** The outcome of acl_cache_update_rights_mask on one slot: the new mask
      (None is NULL) and whether the cached current rights must be dropped. */
  function ModifyMask(mode: ModifyMode, oldMask: Option<Mask>, change: Option<Mask>): (r: (Option<Mask>, bool))
  {
    match mode
    case Add =>
      if oldMask.None? then (change, true)
      else if change.None? then (oldMask, false)
      else (Some(OrMask(oldMask.value, change.value)), true)
    case Remove =>
      if oldMask.None? || change.None? then (oldMask, false)
      else (Some(ClearMask(oldMask.value, change.value)), true)
    case Replace =>
      (change, !(oldMask.None? && change.None?))
  }

  /** The cached rights are kept only when the mask is exactly as it was, so
      dropping on "changed" never leaves a stale cache. */
  lemma ModifyMaskUnchanged(mode: ModifyMode, oldMask: Option<Mask>, change: Option<Mask>)
    ensures !ModifyMask(mode, oldMask, change).1 ==> ModifyMask(mode, oldMask, change).0 == oldMask
  {
  }

  predicate MaskHas(m: Option<Mask>, k: nat)
  {
    m.Some? && BitSet(m.value, k)
  }

  /** What each mode does to the set of rights in the slot: ADD unites,
      REMOVE subtracts (and keeps the old size), REPLACE takes the change. */
  lemma ModifyMaskBits(mode: ModifyMode, oldMask: Option<Mask>, change: Option<Mask>, k: nat)
    ensures var r := ModifyMask(mode, oldMask, change).0;
      match mode
      case Add => (MaskHas(r, k) <==> MaskHas(oldMask, k) || MaskHas(change, k)) &&
                  (r.None? <==> oldMask.None? && change.None?)
      case Remove => (MaskHas(r, k) <==> MaskHas(oldMask, k) && !MaskHas(change, k)) &&
                     (r.Some? <==> oldMask.Some?) &&
                     (r.Some? ==> |r.value| == |oldMask.value|)
      case Replace => r == change
  {
    if oldMask.Some? && change.Some? {
      OrMaskBits(oldMask.value, change.value, k);
      ClearMaskBits(oldMask.value, change.value, k);
    }
  }

  // ---------------------------------------------------------------------
  // Current rights

  function OrSlot(acc: Mask, m: Option<Mask>): Mask
  {
    if m.Some? then OrMask(acc, m.value) else acc
  }

  /** The union of the positive and negative masks of the first n slots,
      applied in the order acl_cache_my_current_rights_recalculate uses. */
  function RightsUpTo(o: ObjectCache, n: nat): Mask
    requires n <= |o.myRights| && n <= |o.myNegRights|
  {
    if n == 0 then [] else OrSlot(OrSlot(RightsUpTo(o, n - 1), o.myRights[n - 1]), o.myNegRights[n - 1])
  }

  predicate WellSized(o: ObjectCache)
  {
    |o.myRights| == IdTypeCount && |o.myNegRights| == IdTypeCount
  }

  /** The recomputed current rights of an object. */
  function Recalculated(o: ObjectCache): Mask
    requires WellSized(o)
  {
    RightsUpTo(o, IdTypeCount)
  }

  /** As written, a bit of the current rights is set when any slot's positive
      OR NEGATIVE mask has it: negative rights are ORed in too. */
  lemma {:induction false} RightsUpToBits(o: ObjectCache, n: nat, k: nat)
    requires n <= |o.myRights| && n <= |o.myNegRights|
    ensures BitSet(RightsUpTo(o, n), k) <==>
      exists i :: 0 <= i < n && (MaskHas(o.myRights[i], k) || MaskHas(o.myNegRights[i], k))
  {
    if n > 0 {
      RightsUpToBits(o, n - 1, k);
      var a := RightsUpTo(o, n - 1);
      var b := OrSlot(a, o.myRights[n - 1]);
      if o.myRights[n - 1].Some? {
        OrMaskBits(a, o.myRights[n - 1].value, k);
      }
      if o.myNegRights[n - 1].Some? {
        OrMaskBits(b, o.myNegRights[n - 1].value, k);
      }
      assert BitSet(RightsUpTo(o, n), k) <==>
        BitSet(a, k) || MaskHas(o.myRights[n - 1], k) || MaskHas(o.myNegRights[n - 1], k);
      NamingStep(o, n, k);
    }
  }

  /** The set of slots naming a right, extended by one slot. */
  lemma NamingStep(o: ObjectCache, n: nat, k: nat)
    requires 0 < n <= |o.myRights| && n <= |o.myNegRights|
    ensures (exists i :: 0 <= i < n && (MaskHas(o.myRights[i], k) || MaskHas(o.myNegRights[i], k)))
      <==> (exists i :: 0 <= i < n - 1 && (MaskHas(o.myRights[i], k) || MaskHas(o.myNegRights[i], k)))
           || MaskHas(o.myRights[n - 1], k) || MaskHas(o.myNegRights[n - 1], k)
  {
    if exists i :: 0 <= i < n && (MaskHas(o.myRights[i], k) || MaskHas(o.myNegRights[i], k)) {
      var i :| 0 <= i < n && (MaskHas(o.myRights[i], k) || MaskHas(o.myNegRights[i], k));
      if i < n - 1 {
        assert 0 <= i < n - 1;
      }
    }
  }

  lemma RecalculatedBits(o: ObjectCache, k: nat)
    requires WellSized(o)
    ensures BitSet(Recalculated(o), k) <==>
      exists i :: 0 <= i < IdTypeCount && (MaskHas(o.myRights[i], k) || MaskHas(o.myNegRights[i], k))
  {
    RightsUpToBits(o, IdTypeCount, k);
  }

  /** A negative right no positive mask grants still ends up in the current
      rights as written; with the negatives subtracted it does not. */
  lemma NegativeRightGranted(o: ObjectCache, k: nat)
    requires WellSized(o)
    requires forall i :: 0 <= i < IdTypeCount ==> !MaskHas(o.myRights[i], k)
    requires exists i :: 0 <= i < IdTypeCount && MaskHas(o.myNegRights[i], k)
    ensures BitSet(Recalculated(o), k)
    ensures !BitSet(CorrectedUpTo(o, IdTypeCount), k)
    ensures !BitSet(GlobalCorrected(o), k)
  {
    RecalculatedBits(o, k);
    CorrectedUpToBits(o, IdTypeCount, k);
    GlobalCorrectedBits(o, k);
  }

  function ClearSlot(acc: Mask, m: Option<Mask>): Mask
  {
    if m.Some? then ClearMask(acc, m.value) else acc
  }

  /** The current rights with the negative masks subtracted, as the comment
      in the loop says they should be ("they override positive rights"):
      each slot adds its positive rights, then clears its negative ones. */
  function CorrectedUpTo(o: ObjectCache, n: nat): Mask
    requires n <= |o.myRights| && n <= |o.myNegRights|
  {
    if n == 0 then [] else ClearSlot(OrSlot(CorrectedUpTo(o, n - 1), o.myRights[n - 1]), o.myNegRights[n - 1])
  }

  /** With the negatives subtracted, a right is current exactly when some
      slot grants it and neither that slot nor a later one denies it. */
  lemma {:induction false} CorrectedUpToBits(o: ObjectCache, n: nat, k: nat)
    requires n <= |o.myRights| && n <= |o.myNegRights|
    ensures BitSet(CorrectedUpTo(o, n), k) <==>
      exists i :: 0 <= i < n && MaskHas(o.myRights[i], k) && forall j :: i <= j < n ==> !MaskHas(o.myNegRights[j], k)
  {
    if n > 0 {
      CorrectedUpToBits(o, n - 1, k);
      var a := CorrectedUpTo(o, n - 1);
      var b := OrSlot(a, o.myRights[n - 1]);
      if o.myRights[n - 1].Some? {
        OrMaskBits(a, o.myRights[n - 1].value, k);
      }
      if o.myNegRights[n - 1].Some? {
        ClearMaskBits(b, o.myNegRights[n - 1].value, k);
      }
      assert BitSet(b, k) <==> BitSet(a, k) || MaskHas(o.myRights[n - 1], k);
      assert BitSet(CorrectedUpTo(o, n), k) <==> BitSet(b, k) && !MaskHas(o.myNegRights[n - 1], k);
      GrantedStep(o, n, k);
    }
  }

  /** The set of granting slots, extended by one slot. */
  lemma GrantedStep(o: ObjectCache, n: nat, k: nat)
    requires 0 < n <= |o.myRights| && n <= |o.myNegRights|
    ensures (exists i :: 0 <= i < n && MaskHas(o.myRights[i], k) && forall j :: i <= j < n ==> !MaskHas(o.myNegRights[j], k))
      <==> ((exists i :: 0 <= i < n - 1 && MaskHas(o.myRights[i], k) && forall j :: i <= j < n - 1 ==> !MaskHas(o.myNegRights[j], k))
            || MaskHas(o.myRights[n - 1], k)) && !MaskHas(o.myNegRights[n - 1], k)
  {
    if exists i :: 0 <= i < n && MaskHas(o.myRights[i], k) && forall j :: i <= j < n ==> !MaskHas(o.myNegRights[j], k) {
      var i :| 0 <= i < n && MaskHas(o.myRights[i], k) && forall j :: i <= j < n ==> !MaskHas(o.myNegRights[j], k);
      assert !MaskHas(o.myNegRights[n - 1], k);
    }
    if MaskHas(o.myRights[n - 1], k) && !MaskHas(o.myNegRights[n - 1], k) {
      assert forall j :: n - 1 <= j < n ==> !MaskHas(o.myNegRights[j], k);
    }
  }

  /** The union of the first n masks of a slot list. */
  function UnionUpTo(ms: seq<Option<Mask>>, n: nat): Mask
    requires n <= |ms|
  {
    if n == 0 then [] else OrSlot(UnionUpTo(ms, n - 1), ms[n - 1])
  }

  lemma {:induction false} UnionUpToBits(ms: seq<Option<Mask>>, n: nat, k: nat)
    requires n <= |ms|
    ensures BitSet(UnionUpTo(ms, n), k) <==> exists i :: 0 <= i < n && MaskHas(ms[i], k)
  {
    if n > 0 {
      UnionUpToBits(ms, n - 1, k);
      if ms[n - 1].Some? {
        OrMaskBits(UnionUpTo(ms, n - 1), ms[n - 1].value, k);
      }
      if BitSet(UnionUpTo(ms, n), k) && !(exists i :: 0 <= i < n - 1 && MaskHas(ms[i], k)) {
        assert MaskHas(ms[n - 1], k);
      }
    }
  }

  /** The other reading of "they override positive rights": every negative
      mask removes its rights from the union of all positive masks, whatever
      the slot order. */
  function GlobalCorrected(o: ObjectCache): Mask
    requires WellSized(o)
  {
    ClearMask(UnionUpTo(o.myRights, IdTypeCount), UnionUpTo(o.myNegRights, IdTypeCount))
  }

  /** Under the global reading a right is current exactly when some slot
      grants it and no slot denies it. */
  lemma GlobalCorrectedBits(o: ObjectCache, k: nat)
    requires WellSized(o)
    ensures BitSet(GlobalCorrected(o), k) <==>
      (exists i :: 0 <= i < IdTypeCount && MaskHas(o.myRights[i], k)) &&
      forall j :: 0 <= j < IdTypeCount ==> !MaskHas(o.myNegRights[j], k)
  {
    UnionUpToBits(o.myRights, IdTypeCount, k);
    UnionUpToBits(o.myNegRights, IdTypeCount, k);
    ClearMaskBits(UnionUpTo(o.myRights, IdTypeCount), UnionUpTo(o.myNegRights, IdTypeCount), k);
  }

  /** The global reading grants no more than the slot-by-slot one; the two
      differ only on a right that an earlier slot denies and a later slot
      grants. */
  lemma GlobalWithinCorrected(o: ObjectCache, k: nat)
    requires WellSized(o)
    ensures BitSet(GlobalCorrected(o), k) ==> BitSet(CorrectedUpTo(o, IdTypeCount), k)
    ensures BitSet(CorrectedUpTo(o, IdTypeCount), k) && !BitSet(GlobalCorrected(o), k) ==>
      exists i, j :: 0 <= j < i < IdTypeCount && MaskHas(o.myNegRights[j], k) && MaskHas(o.myRights[i], k)
  {
    GlobalCorrectedBits(o, k);
    CorrectedUpToBits(o, IdTypeCount, k);
    if BitSet(GlobalCorrected(o), k) {
      var i :| 0 <= i < IdTypeCount && MaskHas(o.myRights[i], k);
      assert forall j :: i <= j < IdTypeCount ==> !MaskHas(o.myNegRights[j], k);
    }
    if BitSet(CorrectedUpTo(o, IdTypeCount), k) && !BitSet(GlobalCorrected(o), k) {
      var i :| 0 <= i < IdTypeCount && MaskHas(o.myRights[i], k) && forall j :: i <= j < IdTypeCount ==> !MaskHas(o.myNegRights[j], k);
      var j :| 0 <= j < IdTypeCount && MaskHas(o.myNegRights[j], k);
      assert j < i;
    }
  }

  /** A well-formed object entry: five slots of each kind, and a cached value
      that, when present, is the recomputation of the masks. */
  predicate ObjectCacheValid(o: ObjectCache)
  {
    WellSized(o) && (o.myCurrentRights.Some? ==> o.myCurrentRights.value == Recalculated(o))
  }

  /** Whether an ACL entry's identifier applies to the current user, as the
      switch in acl_cache_update decides it. */
  function IdTypeApplies(backend: Backend, rights: AclRights): bool
  {
    match rights.idType
    case Anyone => true
    case Authenticated => backend.userIsAuthenticated
    case Group => backend.userIsInGroup(rights.identifier)
    case GroupOverride => backend.userIsInGroup(rights.identifier)
    case User => backend.userNameEquals(rights.identifier)
  }

  predicate RightsInterned(idx: map<string, nat>, rights: Option<seq<string>>)
  {
    rights.Some? ==> forall j :: 0 <= j < |rights.value| ==> rights.value[j] in idx && idx[rights.value[j]] >= 1
  }

  function ChangeMask(idx: map<string, nat>, rights: Option<seq<string>>): Option<Mask>
    requires RightsInterned(idx, rights)
  {
    if rights.None? then None else Some(MaskOfRights(idx, rights.value))
  }

  /** One acl_cache_update_rights_mask call on slot `slot` of the positive
      (neg = false) or negative masks. */
  function ModifySlot(idx: map<string, nat>, o: ObjectCache, neg: bool, slot: nat,
                      mode: ModifyMode, rights: Option<seq<string>>): (r: ObjectCache)
    requires WellSized(o) && slot < IdTypeCount
    requires RightsInterned(idx, rights)
    ensures WellSized(r)
  {
    var masks := if neg then o.myNegRights else o.myRights;
    var (m, changed) := ModifyMask(mode, masks[slot], ChangeMask(idx, rights));
    var current := if changed then None else o.myCurrentRights;
    if neg then o.(myNegRights := masks[slot := m], myCurrentRights := current)
    else o.(myRights := masks[slot := m], myCurrentRights := current)
  }

  /** acl_cache_update_rights: the positive then the negative update of the
      entry's identifier-type slot. */
  function UpdatedObject(idx: map<string, nat>, o: ObjectCache, rights: AclRights): (r: ObjectCache)
    requires WellSized(o)
    requires RightsInterned(idx, rights.rights) && RightsInterned(idx, rights.negRights)
    ensures WellSized(r)
  {
    var slot := IdTypeIndex(rights.idType);
    var o1 := ModifySlot(idx, o, false, slot, rights.modifyMode, rights.rights);
    ModifySlot(idx, o1, true, slot, rights.negModifyMode, rights.negRights)
  }

  /** A slot update keeps the cache coherent, changes only its own slot, and
      keeps the cached value exactly when the mask did not change. */
  lemma ModifySlotValid(idx: map<string, nat>, o: ObjectCache, neg: bool, slot: nat,
                        mode: ModifyMode, rights: Option<seq<string>>)
    requires ObjectCacheValid(o) && slot < IdTypeCount
    requires RightsInterned(idx, rights)
    ensures var r := ModifySlot(idx, o, neg, slot, mode, rights);
      ObjectCacheValid(r) &&
      (forall i :: 0 <= i < IdTypeCount && i != slot ==> r.myRights[i] == o.myRights[i] && r.myNegRights[i] == o.myNegRights[i]) &&
      (neg ==> r.myRights == o.myRights) && (!neg ==> r.myNegRights == o.myNegRights)
  {
    var masks := if neg then o.myNegRights else o.myRights;
    var change := ChangeMask(idx, rights);
    ModifyMaskUnchanged(mode, masks[slot], change);
    var r := ModifySlot(idx, o, neg, slot, mode, rights);
    if r.myCurrentRights.Some? {
      assert !ModifyMask(mode, masks[slot], change).1;
      if neg {
        assert r.myNegRights == o.myNegRights;
      } else {
        assert r.myRights == o.myRights;
      }
      assert r == o;
    }
  }

  lemma UpdatedObjectValid(idx: map<string, nat>, o: ObjectCache, rights: AclRights)
    requires ObjectCacheValid(o)
    requires RightsInterned(idx, rights.rights) && RightsInterned(idx, rights.negRights)
    ensures ObjectCacheValid(UpdatedObject(idx, o, rights))
    ensures var r := UpdatedObject(idx, o, rights);
      forall i :: 0 <= i < IdTypeCount && i != IdTypeIndex(rights.idType) ==>
        r.myRights[i] == o.myRights[i] && r.myNegRights[i] == o.myNegRights[i]
  {
    var slot := IdTypeIndex(rights.idType);
    ModifySlotValid(idx, o, false, slot, rights.modifyMode, rights.rights);
    var o1 := ModifySlot(idx, o, false, slot, rights.modifyMode, rights.rights);
    ModifySlotValid(idx, o1, true, slot, rights.negModifyMode, rights.negRights);
  }

  /** `p[j] |= src[j]` for every byte of src, on a buffer at least as long. */
  method OrBytesInto(dst: Mask, src: Mask) returns (r: Mask)
    requires |src| <= |dst|
    ensures r == OrMask(dst, src)
  {
    r := dst;
    for j := 0 to |src|
      invariant |r| == |dst|
      invariant forall i :: 0 <= i < j ==> r[i] == dst[i] | src[i]
      invariant forall i :: j <= i < |dst| ==> r[i] == dst[i]
    {
      r := r[j := r[j] | src[j]];
    }
  }

  /** `old[i] &= ~change[i]` for the bytes both masks have. */
  method RemoveBits(oldMask: Mask, change: Mask) returns (r: Mask)
    ensures r == ClearMask(oldMask, change)
  {
    var size := if |oldMask| <= |change| then |oldMask| else |change|;
    r := oldMask;
    for i := 0 to size
      invariant |r| == |oldMask|
      invariant forall j :: 0 <= j < i ==> r[j] == oldMask[j] & !change[j]
      invariant forall j :: i <= j < |oldMask| ==> r[j] == oldMask[j]
    {
      r := r[i := r[i] & !change[i]];
    }
  }

  /** acl_cache_my_current_rights_recalculate: OR every present mask of every
      slot into a growing buffer and cache the result. */
  method MyCurrentRightsRecalculate(o: ObjectCache) returns (r: ObjectCache)
    requires WellSized(o)
    ensures r == o.(myCurrentRights := Some(Recalculated(o)))
  {
    var bitmask: Mask := [];
    for i := 0 to IdTypeCount
      invariant bitmask == RightsUpTo(o, i)
    {
      if o.myRights[i].Some? {
        var m := o.myRights[i].value;
        var grown := GetSpace(bitmask, 0, |m|);
        bitmask := OrBytesInto(grown, m);
        assert OrMask(grown, m) == OrMask(RightsUpTo(o, i), m);
      }
      var b1 := bitmask;
      if o.myNegRights[i].Some? {
        var m := o.myNegRights[i].value;
        var grown := GetSpace(bitmask, 0, |m|);
        bitmask := OrBytesInto(grown, m);
        assert OrMask(grown, m) == OrMask(b1, m);
      }
    }
    r := o.(myCurrentRights := Some(bitmask));
  }

  // ---------------------------------------------------------------------
  // The cache

  class AclCache {
    const backend: Backend
    /** objects: object name => its entry */
    var objects: map<string, ObjectCache>
    /** right_idx_name_map: idx => right name */
    var rightIdxNameMap: seq<string>
    /** right_name_idx_map: right name => idx + 1 */
    var rightNameIdxMap: map<string, nat>

    ghost predicate Valid()
      reads this
    {
      NamesInverse(rightIdxNameMap, rightNameIdxMap) &&
      forall name :: name in objects ==> ObjectCacheValid(objects[name])
    }

    /** acl_cache_init: no objects and no right names yet. */
    constructor (backend: Backend)
      ensures Valid()
      ensures this.backend == backend
      ensures objects == map[] && rightIdxNameMap == [] && rightNameIdxMap == map[]
    {
      this.backend := backend;
      objects := map[];
      rightIdxNameMap := [];
      rightNameIdxMap := map[];
    }

    /** acl_cache_right_lookup: the index of a right, interning a new name at
        the end of the names array. */
    method RightLookup(right: string) returns (idx: nat)
      requires Valid()
      modifies this`rightIdxNameMap, this`rightNameIdxMap
      ensures Valid()
      ensures idx < |rightIdxNameMap| && rightIdxNameMap[idx] == right
      ensures right in rightNameIdxMap && rightNameIdxMap[right] == idx + 1
      ensures right in old(rightNameIdxMap) ==>
        idx == old(rightNameIdxMap)[right] - 1 &&
        rightIdxNameMap == old(rightIdxNameMap) && rightNameIdxMap == old(rightNameIdxMap)
      ensures right !in old(rightNameIdxMap) ==>
        idx == |old(rightIdxNameMap)| &&
        rightIdxNameMap == old(rightIdxNameMap) + [right] &&
        rightNameIdxMap == old(rightNameIdxMap)[right := idx + 1]
    {
      if right !in rightNameIdxMap {
        idx := |rightIdxNameMap|;
        rightIdxNameMap := rightIdxNameMap + [right];
        rightNameIdxMap := rightNameIdxMap[right := idx + 1];
      } else {
        idx := rightNameIdxMap[right] - 1;
      }
    }

    /** acl_cache_get_names: the whole names array and its length. */
    method GetNames() returns (names: seq<string>, count: nat)
      ensures names == rightIdxNameMap && count == |rightIdxNameMap|
    {
      names := rightIdxNameMap;
      count := |rightIdxNameMap|;
    }

    /** acl_cache_mask_init: intern every right and set its bit. */
    method MaskInit(rights: seq<string>) returns (mask: Mask)
      requires Valid()
      modifies this`rightIdxNameMap, this`rightNameIdxMap
      ensures Valid()
      ensures old(rightIdxNameMap) <= rightIdxNameMap
      ensures rightIdxNameMap == Interned(old(rightIdxNameMap), rights)
      ensures forall n :: n in rightNameIdxMap <==> n in old(rightNameIdxMap) || n in rights
      ensures forall j :: 0 <= j < |rights| ==> rights[j] in rightNameIdxMap
      ensures mask == MaskOfRights(rightNameIdxMap, rights)
    {
      var bitmask: Mask := [];
      for i := 0 to |rights|
        invariant Valid()
        invariant old(rightIdxNameMap) <= rightIdxNameMap
        invariant rightIdxNameMap == Interned(old(rightIdxNameMap), rights[..i])
        invariant forall j :: 0 <= j < i ==> rights[j] in rightNameIdxMap && rightNameIdxMap[rights[j]] >= 1
        invariant bitmask == MaskOfRights(rightNameIdxMap, rights[..i])
      {
        ghost var idx0 := rightNameIdxMap;
        ghost var names0 := rightIdxNameMap;
        NamesInverseMembers(names0, idx0, rights[i]);
        var idx := RightLookup(rights[i]);
        assert rights[..i + 1][..i] == rights[..i];
        InternStep(names0, idx0, rightIdxNameMap, rightNameIdxMap, rights, i, idx);
        bitmask := SetBit(bitmask, idx);
      }
      assert rights[..|rights|] == rights;
      mask := bitmask;
      forall n
        ensures n in rightNameIdxMap <==> n in old(rightNameIdxMap) || n in rights
      {
        NamesInverseMembers(old(rightIdxNameMap), old(rightNameIdxMap), n);
        NamesInverseMembers(rightIdxNameMap, rightNameIdxMap, n);
        InternedNames(old(rightIdxNameMap), rights, n);
      }
    }

    /** acl_cache_update_rights_mask on one slot: build the change mask,
        combine it with the slot's mask by mode, and drop the cached rights
        when the result counts as changed. */
    method UpdateRightsMask(mode: ModifyMode, rights: Option<seq<string>>,
                            oldMask: Option<Mask>, current: Option<Mask>)
      returns (newMask: Option<Mask>, newCurrent: Option<Mask>)
      requires Valid()
      modifies this`rightIdxNameMap, this`rightNameIdxMap
      ensures Valid()
      ensures old(rightIdxNameMap) <= rightIdxNameMap
      ensures rightIdxNameMap == Interned(old(rightIdxNameMap), Listed(rights))
      ensures forall n :: n in rightNameIdxMap <==> n in old(rightNameIdxMap) || n in Listed(rights)
      ensures RightsInterned(rightNameIdxMap, rights)
      ensures (newMask, newCurrent.None?) == (ModifyMask(mode, oldMask, ChangeMask(rightNameIdxMap, rights)).0,
                                               ModifyMask(mode, oldMask, ChangeMask(rightNameIdxMap, rights)).1 || current.None?)
      ensures newCurrent.Some? ==> newCurrent == current
    {
      var changeMask: Option<Mask> := None;
      if rights.Some? {
        var m := MaskInit(rights.value);
        changeMask := Some(m);
      }
      var changed := true;
      newMask := oldMask;
      match mode {
        case Add =>
          if oldMask.None? {
            newMask := changeMask;
          } else if changeMask.None? {
            changed := false;
          } else if |oldMask.value| >= |changeMask.value| {
            var merged := OrBytesInto(oldMask.value, changeMask.value);
            newMask := Some(merged);
          } else {
            var merged := OrBytesInto(changeMask.value, oldMask.value);
            assert OrMask(changeMask.value, oldMask.value) == OrMask(oldMask.value, changeMask.value);
            newMask := Some(merged);
          }
        case Remove =>
          if oldMask.None? || changeMask.None? {
            changed := false;
          } else {
            var cleared := RemoveBits(oldMask.value, changeMask.value);
            newMask := Some(cleared);
          }
        case Replace =>
          if oldMask.None? && changeMask.None? {
            changed := false;
          }
          newMask := changeMask;
      }
      newCurrent := if changed then None else current;
    }

    /** acl_cache_update_rights: positive then negative update of the slot of
        the entry's identifier type. */
    method UpdateRights(o: ObjectCache, rights: AclRights) returns (r: ObjectCache)
      requires Valid() && ObjectCacheValid(o)
      modifies this`rightIdxNameMap, this`rightNameIdxMap
      ensures Valid()
      ensures old(rightIdxNameMap) <= rightIdxNameMap
      ensures rightIdxNameMap == Interned(Interned(old(rightIdxNameMap), Listed(rights.rights)), Listed(rights.negRights))
      ensures forall n :: n in rightNameIdxMap <==>
        n in old(rightNameIdxMap) || n in Listed(rights.rights) || n in Listed(rights.negRights)
      ensures RightsInterned(rightNameIdxMap, rights.rights) && RightsInterned(rightNameIdxMap, rights.negRights)
      ensures r == UpdatedObject(rightNameIdxMap, o, rights)
    {
      var slot := IdTypeIndex(rights.idType);
      var m, cur := UpdateRightsMask(rights.modifyMode, rights.rights, o.myRights[slot], o.myCurrentRights);
      var o1 := o.(myRights := o.myRights[slot := m], myCurrentRights := cur);
      ghost var idx1 := rightNameIdxMap;
      ghost var names1 := rightIdxNameMap;
      assert o1 == ModifySlot(idx1, o, false, slot, rights.modifyMode, rights.rights);
      var n, cur2 := UpdateRightsMask(rights.negModifyMode, rights.negRights, o1.myNegRights[slot], o1.myCurrentRights);
      r := o1.(myNegRights := o1.myNegRights[slot := n], myCurrentRights := cur2);
      SameMasksAfterInterning(names1, idx1, rightIdxNameMap, rightNameIdxMap, rights.rights);
      assert r == ModifySlot(rightNameIdxMap, o1, true, slot, rights.negModifyMode, rights.negRights);
    }

    /** acl_cache_update: find or create the object's entry, then apply the
        ACL entry when its identifier applies to the current user. */
    method Update(objName: string, rights: AclRights)
      requires Valid()
      modifies this
      ensures Valid()
      ensures old(rightIdxNameMap) <= rightIdxNameMap
      ensures objects.Keys == old(objects).Keys + {objName}
      ensures forall n :: n in old(objects) && n != objName ==> objects[n] == old(objects)[n]
      ensures var o := if objName in old(objects) then old(objects)[objName] else NewObjectCache();
        if IdTypeApplies(backend, rights) then
          rightIdxNameMap == Interned(Interned(old(rightIdxNameMap), Listed(rights.rights)), Listed(rights.negRights)) &&
          (forall n :: n in rightNameIdxMap <==>
            n in old(rightNameIdxMap) || n in Listed(rights.rights) || n in Listed(rights.negRights)) &&
          RightsInterned(rightNameIdxMap, rights.rights) && RightsInterned(rightNameIdxMap, rights.negRights) &&
          objects[objName] == UpdatedObject(rightNameIdxMap, o, rights)
        else
          objects[objName] == o && rightIdxNameMap == old(rightIdxNameMap) && rightNameIdxMap == old(rightNameIdxMap)
    {
      var o: ObjectCache;
      if objName in objects {
        o := objects[objName];
      } else {
        o := NewObjectCache();
        objects := objects[objName := o];
      }
      var applies: bool;
      match rights.idType {
        case Anyone =>
          applies := true;
        case Authenticated =>
          applies := backend.userIsAuthenticated;
        case Group =>
          applies := backend.userIsInGroup(rights.identifier);
        case GroupOverride =>
          applies := backend.userIsInGroup(rights.identifier);
        case User =>
          applies := backend.userNameEquals(rights.identifier);
      }
      if applies {
        var r := UpdateRights(o, rights);
        UpdatedObjectValid(rightNameIdxMap, o, rights);
        objects := objects[objName := r];
      }
    }

    /** acl_cache_get_my_rights: NULL for an unknown object, otherwise the
        cached current rights, recomputed first if they were dropped. */
    method GetMyRights(objName: string) returns (r: Option<Mask>)
      requires Valid()
      modifies this`objects
      ensures Valid()
      ensures objName !in old(objects) ==> r == None && objects == old(objects)
      ensures objName in old(objects) ==>
        r == Some(Recalculated(old(objects)[objName])) &&
        objects == old(objects)[objName := old(objects)[objName].(myCurrentRights := r)]
    {
      if objName !in objects {
        return None;
      }
      var o := objects[objName];
      if o.myCurrentRights.None? {
        RightsUpToIgnoresCache(o, Some(Recalculated(o)), IdTypeCount);
        o := MyCurrentRightsRecalculate(o);
        objects := objects[objName := o];
      } else {
        assert objects == old(objects)[objName := o.(myCurrentRights := o.myCurrentRights)];
      }
      r := o.myCurrentRights;
    }

    /** acl_cache_flush: forget one object's entry. */
    method Flush(objName: string)
      requires Valid()
      modifies this`objects
      ensures Valid()
      ensures objects == old(objects) - {objName}
    {
      if objName in objects {
        objects := objects - {objName};
      }
    }

    /** acl_cache_flush_all: forget every object's entry. */
    method FlushAll()
      requires Valid()
      modifies this`objects
      ensures Valid()
      ensures objects == map[]
    {
      objects := map[];
    }
  }

  /** One MaskInit iteration: the indices of the rights already handled
      survive the lookup of rights[i], which adds idx to the list. */
  lemma InternStep(names: seq<string>, idx: map<string, nat>,
                   names': seq<string>, idx': map<string, nat>, rights: seq<string>, i: nat, k: nat)
    requires NamesInverse(names, idx) && NamesInverse(names', idx')
    requires names <= names'
    requires i < |rights| && rights[i] in idx' && idx'[rights[i]] == k + 1
    requires forall j :: 0 <= j < i ==> rights[j] in idx && idx[rights[j]] >= 1
    ensures forall j :: 0 <= j <= i ==> rights[j] in idx' && idx'[rights[j]] >= 1
    ensures MaskOfRights(idx', rights[..i + 1]) == SetBit(MaskOfRights(idx, rights[..i]), k)
  {
    IndicesKept(names, idx, names', idx', rights[..i]);
    assert rights[..i + 1] == rights[..i] + [rights[i]];
    assert IndicesOf(idx', rights[..i + 1]) == IndicesOf(idx', rights[..i]) + [k];
  }

  /** The cached value plays no part in the recomputation. */
  lemma {:induction false} RightsUpToIgnoresCache(o: ObjectCache, c: Option<Mask>, n: nat)
    requires n <= |o.myRights| && n <= |o.myNegRights|
    ensures RightsUpTo(o.(myCurrentRights := c), n) == RightsUpTo(o, n)
  {
    if n > 0 {
      RightsUpToIgnoresCache(o, c, n - 1);
    }
  }

  /** Interning more names does not change the mask of rights that were
      already interned. */
  lemma SameMasksAfterInterning(names: seq<string>, idx: map<string, nat>,
                                names': seq<string>, idx': map<string, nat>, rights: Option<seq<string>>)
    requires NamesInverse(names, idx) && NamesInverse(names', idx')
    requires names <= names'
    requires RightsInterned(idx, rights)
    ensures RightsInterned(idx', rights)
    ensures ChangeMask(idx', rights) == ChangeMask(idx, rights)
  {
    if rights.Some? {
      IndicesKept(names, idx, names', idx', rights.value);
    }
  }

  /** Appending names keeps the indices of a list of known rights. */
  lemma IndicesKept(names: seq<string>, idx: map<string, nat>,
                    names': seq<string>, idx': map<string, nat>, rs: seq<string>)
    requires NamesInverse(names, idx) && NamesInverse(names', idx')
    requires names <= names'
    requires forall j :: 0 <= j < |rs| ==> rs[j] in idx && idx[rs[j]] >= 1
    ensures forall j :: 0 <= j < |rs| ==> rs[j] in idx' && idx'[rs[j]] == idx[rs[j]]
    ensures IndicesOf(idx', rs) == IndicesOf(idx, rs)
  {
    forall j | 0 <= j < |rs|
      ensures rs[j] in idx' && idx'[rs[j]] == idx[rs[j]]
    {
      ExtensionKeepsIndices(names, idx, names', idx', rs[j]);
    }
    SameIndices(idx, idx', rs);
  }

  /** Two maps that agree on a list of rights give it the same indices. */
  lemma SameIndices(idx: map<string, nat>, idx': map<string, nat>, rs: seq<string>)
    requires forall j :: 0 <= j < |rs| ==> rs[j] in idx && idx[rs[j]] >= 1
    requires forall j :: 0 <= j < |rs| ==> rs[j] in idx' && idx'[rs[j]] == idx[rs[j]]
    ensures IndicesOf(idx', rs) == IndicesOf(idx, rs)
  {
  }

  /** A mask of rights that are all known leaves both name maps as they
      were: only new rights are ever added to the mapping. */
  method MaskInitKnownRights(cache: AclCache, rights: seq<string>) returns (mask: Mask)
    requires cache.Valid()
    requires forall j :: 0 <= j < |rights| ==> rights[j] in cache.rightNameIdxMap
    modifies cache
    ensures cache.rightIdxNameMap == old(cache.rightIdxNameMap)
    ensures cache.rightNameIdxMap == old(cache.rightNameIdxMap)
    ensures mask == MaskOfRights(cache.rightNameIdxMap, rights)
  {
    ghost var names0 := cache.rightIdxNameMap;
    ghost var idx0 := cache.rightNameIdxMap;
    forall j | 0 <= j < |rights|
      ensures rights[j] in names0
    {
      NamesInverseMembers(names0, idx0, rights[j]);
    }
    InternedKnown(names0, rights);
    mask := cache.MaskInit(rights);
    NamesDetermineIndex(names0, idx0, cache.rightNameIdxMap);
  }

  /** After a flush, the object's rights are unknown, and after a flush of
      everything so are every object's. */
  method LookupAfterFlush(cache: AclCache, objName: string, other: string)
      returns (flushed: Option<Mask>, afterAll: Option<Mask>)
    requires cache.Valid()
    modifies cache
    ensures flushed == None && afterAll == None
  {
    cache.Flush(objName);
    flushed := cache.GetMyRights(objName);
    cache.FlushAll();
    afterAll := cache.GetMyRights(other);
  }

  /** Two lookups of the same object without an update in between return
      the same mask. */
  method GetMyRightsTwice(cache: AclCache, objName: string) returns (r1: Option<Mask>, r2: Option<Mask>)
    requires cache.Valid()
    modifies cache
    ensures r1 == r2
    ensures r1.None? <==> objName !in old(cache.objects)
  {
    r1 := cache.GetMyRights(objName);
    r2 := cache.GetMyRights(objName);
  }
}
