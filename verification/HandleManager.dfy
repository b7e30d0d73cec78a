/** `handle::Manager`: handles are an index, an epoch and a type code packed into a word; tables of
    weak references reuse their slots under a new epoch. */
module HandleManager {
  import opened Bits
  import opened Arith64
  import opened Options

  const INDEX_BITS: nat := 32
  const EPOCH_BITS: nat := 20
  const TYPE_BITS: nat := 4
  const TYPE_POS: nat := 52

  const INDEXES: nat := 0x1_0000_0000
  const EPOCHS: nat := 0x10_0000

  // ---------------------------------------------------------------- packing

  /** `makeHandle` and the field getters, as the source writes them. */
  function MakeHandle(code: nat, index: nat, epoch: nat): nat {
    BitOr(BitOr(BitAnd(index, Pow2(INDEX_BITS) - 1), Shl(BitAnd(epoch, Pow2(EPOCH_BITS) - 1), INDEX_BITS)),
          Shl(BitAnd(code, Pow2(TYPE_BITS) - 1), TYPE_POS))
  }

  function GetIndex(h: nat): nat {
    BitAnd(h, Pow2(INDEX_BITS) - 1)
  }

  function GetEpoch(h: nat): nat {
    Shr(BitAnd(h, Shl(Pow2(EPOCH_BITS) - 1, INDEX_BITS)), INDEX_BITS)
  }

  function GetType(h: nat): nat {
    Shr(BitAnd(h, Shl(Pow2(TYPE_BITS) - 1, TYPE_POS)), TYPE_POS)
  }

  lemma Field(x: nat, j: nat, k: nat)
    ensures Shr(BitAnd(x, Shl(Pow2(j) - 1, k)), k) == Shr(x, k) % Pow2(j)
  {
    hide Pow2, Shr, BitAnd;
    FieldAnd(x, j, k);
    ShrSum(0, Shr(x, k) % Pow2(j), k);
  }

  lemma Widths()
    ensures Pow2(INDEX_BITS) == INDEXES && Pow2(EPOCH_BITS) == EPOCHS && Pow2(TYPE_BITS) == 16
    ensures Pow2(TYPE_POS) == INDEXES * EPOCHS
  {
    assert Pow2(4) == 16 && Pow2(8) == 0x100;
    Pow2Add(8, 8);
    Pow2Add(16, 4);
    Pow2Add(16, 16);
    Pow2Add(32, 20);
  }

  /** The fields are a handle's digits. */
  lemma Packed(code: nat, index: nat, epoch: nat)
    ensures MakeHandle(code, index, epoch) ==
      index % INDEXES + (epoch % EPOCHS) * INDEXES + (code % 16) * (INDEXES * EPOCHS)
  {
    hide Pow2, BitOr, BitAnd;
    Widths();
    MaskIsMod(index, INDEX_BITS);
    MaskIsMod(epoch, EPOCH_BITS);
    MaskIsMod(code, TYPE_BITS);
    OrDisjoint(index % INDEXES, epoch % EPOCHS, INDEX_BITS);
    OrDisjoint(index % INDEXES + (epoch % EPOCHS) * INDEXES, code % 16, TYPE_POS);
  }

  /** The getters give back what a handle was made of, as far as the fields reach. */
  lemma RoundTrip(code: nat, index: nat, epoch: nat)
    ensures var h := MakeHandle(code, index, epoch);
      GetIndex(h) == index % INDEXES && GetEpoch(h) == epoch % EPOCHS && GetType(h) == code % 16
  {
    hide Pow2, BitOr, BitAnd, Shr, MakeHandle;
    Packed(code, index, epoch);
    Widths();
    var i, e, c := index % INDEXES, epoch % EPOCHS, code % 16;
    var h := MakeHandle(code, index, epoch);
    MaskIsMod(h, INDEX_BITS);
    ModUnique(h, INDEXES, e + c * EPOCHS, i);
    Field(h, EPOCH_BITS, INDEX_BITS);
    ShrSum(i, e + c * EPOCHS, INDEX_BITS);
    ModUnique(e + c * EPOCHS, EPOCHS, c, e);
    Field(h, TYPE_BITS, TYPE_POS);
    ShrSum(i + e * INDEXES, c, TYPE_POS);
    ModUnique(c, 16, 0, c);
  }

  // ---------------------------------------------------------------- tables

  /** `HandleInfo`: a weak reference, null or to an object, and the epoch of the slot. */
  datatype Slot = Slot(target: Option<int>, epoch: nat)

  /** A handle that was given out: where, in which epoch, for which object. */
  datatype Issue = Issue(index: nat, epoch: nat, target: int)

  /** The weak reference is null or its object is gone. */
  predicate Expired(s: Slot, dead: set<int>) {
    s.target.None? || s.target.value in dead
  }

  /** The slot still is in the epoch in which the handle was given out. */
  predicate Current(slots: seq<Slot>, i: Issue) {
    i.index < |slots| && slots[i.index].epoch == i.epoch
  }

  /** Epochs only advance, and slots are never taken away. */
  ghost predicate Advances(slots: seq<Slot>, slots': seq<Slot>) {
    |slots| <= |slots'| && forall i :: 0 <= i < |slots| ==> slots[i].epoch <= slots'[i].epoch
  }

  /** No handle is from the future; one that is current has its object in the slot; no slot was given
      out twice in one epoch. */
  ghost predicate Consistent(slots: seq<Slot>, issued: set<Issue>) {
    && (forall i :: i in issued ==> i.index < |slots| && i.epoch <= slots[i.index].epoch)
    && (forall i :: i in issued && Current(slots, i) ==> slots[i.index].target == Some(i.target))
    && (forall i, j :: i in issued && j in issued && i.index == j.index && i.epoch == j.epoch ==> i == j)
  }

  /** The handle names a slot, and the epochs agree as far as the field reaches. */
  predicate Matches(slots: seq<Slot>, h: nat) {
    GetIndex(h) < |slots| && BitAnd(slots[GetIndex(h)].epoch, Pow2(EPOCH_BITS) - 1) == GetEpoch(h)
  }

  /** What `get` returns: the object of a slot whose epoch agrees, if it still exists. */
  function Resolve(slots: seq<Slot>, dead: set<int>, h: nat): Option<int> {
    if Matches(slots, h) && !Expired(slots[GetIndex(h)], dead) then slots[GetIndex(h)].target else None
  }

  /** The epoch test of a handle against its slot. */
  lemma EpochTest(code: nat, slots: seq<Slot>, i: Issue)
    requires i.index < |slots| && i.index < INDEXES
    ensures var h := MakeHandle(code, i.index, i.epoch);
      && GetIndex(h) == i.index && GetType(h) == code % 16
      && (BitAnd(slots[i.index].epoch, Pow2(EPOCH_BITS) - 1) == GetEpoch(h) <==>
            slots[i.index].epoch % EPOCHS == i.epoch % EPOCHS)
  {
    hide Pow2, BitAnd, MakeHandle, GetIndex, GetEpoch, GetType;
    RoundTrip(code, i.index, i.epoch);
    Widths();
    MaskIsMod(slots[i.index].epoch, EPOCH_BITS);
    ModUnique(i.index, INDEXES, 0, i.index);
  }

  lemma EpochsApart(e: nat, now: nat)
    requires e <= now
    ensures now % EPOCHS == e % EPOCHS <==> (now - e) % EPOCHS == 0
    ensures now - e < EPOCHS ==> ((now - e) % EPOCHS == 0 <==> now == e)
  {
    var d := now - e;
    if now - e < EPOCHS { ModUnique(d, EPOCHS, 0, d); }
    if d % EPOCHS == 0 {
      ModUnique(now, EPOCHS, e / EPOCHS + d / EPOCHS, e % EPOCHS);
    }
    if now % EPOCHS == e % EPOCHS {
      QuotientGrows(e, now);
      ModUnique(d, EPOCHS, now / EPOCHS - e / EPOCHS, 0);
    }
  }

  lemma QuotientGrows(e: nat, now: nat)
    requires e <= now
    ensures e / EPOCHS <= now / EPOCHS
  {
  }

  /** How often the slot has moved on since the handle was given out. */
  function Turns(slots: seq<Slot>, i: Issue): int
    requires i.index < |slots|
  {
    slots[i.index].epoch - i.epoch
  }

  /** The epochs of a handle and its slot agree exactly after a multiple of 2^20 advances. */
  lemma MatchesIff(code: nat, slots: seq<Slot>, issued: set<Issue>, i: Issue)
    requires Consistent(slots, issued) && i in issued && i.index < INDEXES
    ensures var h := MakeHandle(code, i.index, i.epoch);
      && GetIndex(h) == i.index && (Matches(slots, h) <==> Turns(slots, i) % EPOCHS == 0)
      && (Current(slots, i) <==> Turns(slots, i) == 0) && 0 <= Turns(slots, i)
  {
    hide Pow2, BitAnd, MakeHandle, GetIndex, GetEpoch, GetType;
    EpochTest(code, slots, i);
    EpochsApart(i.epoch, slots[i.index].epoch);
  }

  /** A handle resolves to the object it was given out for while that exists and the slot is in the same
      epoch, and to nothing otherwise, exactly unless the slot has moved on by a positive multiple of
      2^20 and holds an object that exists. */
  lemma ResolveIssuedIff(code: nat, slots: seq<Slot>, dead: set<int>, issued: set<Issue>, i: Issue)
    requires Consistent(slots, issued) && i in issued && i.index < INDEXES
    ensures Resolve(slots, dead, MakeHandle(code, i.index, i.epoch)) ==
              (if Current(slots, i) && i.target !in dead then Some(i.target) else None) <==>
            Turns(slots, i) == 0 || Turns(slots, i) % EPOCHS != 0 || Expired(slots[i.index], dead)
  {
    hide Pow2, BitAnd, MakeHandle, GetIndex, GetEpoch, GetType;
    MatchesIff(code, slots, issued, i);
  }

  /** It never resolves to another object exactly unless that is what the slot then holds. */
  lemma ResolveOtherIff(code: nat, slots: seq<Slot>, dead: set<int>, issued: set<Issue>, i: Issue)
    requires Consistent(slots, issued) && i in issued && i.index < INDEXES
    ensures var r := Resolve(slots, dead, MakeHandle(code, i.index, i.epoch));
      r == None || r == Some(i.target) <==>
        || Turns(slots, i) == 0 || Turns(slots, i) % EPOCHS != 0
        || Expired(slots[i.index], dead) || slots[i.index].target == Some(i.target)
  {
    hide Pow2, BitAnd, MakeHandle, GetIndex, GetEpoch, GetType;
    MatchesIff(code, slots, issued, i);
  }

  /** Fewer than 2^20 advances never confuse a handle. */
  lemma ResolveIssued(code: nat, slots: seq<Slot>, dead: set<int>, issued: set<Issue>, i: Issue)
    requires Consistent(slots, issued) && i in issued && i.index < INDEXES && Turns(slots, i) < EPOCHS
    ensures Resolve(slots, dead, MakeHandle(code, i.index, i.epoch)) ==
      if Current(slots, i) && i.target !in dead then Some(i.target) else None
  {
    hide Pow2, BitAnd, MakeHandle, GetIndex, GetEpoch, GetType;
    ResolveIssuedIff(code, slots, dead, issued, i);
    EpochsApart(i.epoch, slots[i.index].epoch);
  }

  /** Releasing a handle has an effect only while it is current, exactly unless the slot has moved on by
      a positive multiple of 2^20; a release that had an effect leaves it not current. */
  lemma ReleaseIssuedIff(code: nat, slots: seq<Slot>, issued: set<Issue>, i: Issue)
    requires Consistent(slots, issued) && i in issued && i.index < INDEXES
    ensures var h := MakeHandle(code, i.index, i.epoch);
      && GetIndex(h) == i.index
      && ((Matches(slots, h) <==> Current(slots, i)) <==> Turns(slots, i) == 0 || Turns(slots, i) % EPOCHS != 0)
      && !Current(slots[i.index := Slot(None, slots[i.index].epoch + 1)], i)
  {
    hide Pow2, BitAnd, MakeHandle, GetIndex, GetEpoch, GetType;
    MatchesIff(code, slots, issued, i);
  }

  /** Two handles of a table are the same word exactly when they name the same slot a multiple of 2^20
      epochs apart. */
  lemma SameWordIff(code: nat, i: Issue, j: Issue)
    requires i.index < INDEXES && j.index < INDEXES && i.epoch <= j.epoch
    ensures MakeHandle(code, i.index, i.epoch) == MakeHandle(code, j.index, j.epoch) <==>
            i.index == j.index && (j.epoch - i.epoch) % EPOCHS == 0
  {
    hide Pow2, BitAnd, MakeHandle, GetIndex, GetEpoch, GetType;
    RoundTrip(code, i.index, i.epoch);
    RoundTrip(code, j.index, j.epoch);
    Packed(code, i.index, i.epoch);
    Packed(code, j.index, j.epoch);
    ModUnique(i.index, INDEXES, 0, i.index);
    ModUnique(j.index, INDEXES, 0, j.index);
    EpochsApart(i.epoch, j.epoch);
  }

  /** An old handle a positive multiple of 2^20 epochs behind the current one of its slot resolves to
      that one's object, and releasing it takes the slot away from the current one. */
  lemma ResolveAliases(code: nat, slots: seq<Slot>, dead: set<int>, issued: set<Issue>, i: Issue, j: Issue)
    requires Consistent(slots, issued) && i in issued && j in issued && i.index == j.index < INDEXES
    requires Current(slots, j) && j.target !in dead && i != j && (j.epoch - i.epoch) % EPOCHS == 0
    ensures !Current(slots, i) && MakeHandle(code, i.index, i.epoch) == MakeHandle(code, j.index, j.epoch)
    ensures Resolve(slots, dead, MakeHandle(code, i.index, i.epoch)) == Some(j.target)
    ensures Matches(slots, MakeHandle(code, i.index, i.epoch))
    ensures var slots' := slots[i.index := Slot(None, slots[i.index].epoch + 1)];
      !Current(slots', j) && Resolve(slots', dead, MakeHandle(code, j.index, j.epoch)) == None
  {
    hide Pow2, BitAnd, MakeHandle, GetIndex, GetEpoch, GetType;
    SameWordIff(code, i, j);
    MatchesIff(code, slots, issued, i);
    EpochTest(code, slots, j);
  }

  /** Current handles of one table are different words. */
  lemma CurrentDistinct(code: nat, slots: seq<Slot>, issued: set<Issue>, i: Issue, j: Issue)
    requires Consistent(slots, issued) && i in issued && j in issued && Current(slots, i) && Current(slots, j) && i != j
    requires i.index < INDEXES && j.index < INDEXES
    ensures MakeHandle(code, i.index, i.epoch) != MakeHandle(code, j.index, j.epoch)
  {
    hide Pow2, BitAnd, MakeHandle, GetIndex, GetEpoch, GetType;
    EpochTest(code, slots, i);
    EpochTest(code, slots, j);
  }

  /** One table of handles. `dead` are the objects that have lost their last strong reference. */
  class Table {
    const code: nat
    var slots: seq<Slot>
    var dead: set<int>
    ghost var issued: set<Issue>

    ghost predicate Valid()
      reads this
    {
      Consistent(slots, issued)
    }

    constructor (code: nat)
      ensures Valid() && slots == [] && issued == {} && dead == {} && this.code == code
    {
      this.code, slots, dead, issued := code, [], {}, {};
    }

    /** `allocate`: the first slot whose reference is null or expired, under a new epoch, or a new
        slot at the end. */
    method Allocate(target: int) returns (h: nat, ghost i: Issue)
      requires Valid()
      modifies this`slots, this`issued
      ensures Valid() && Advances(old(slots), slots)
      ensures i !in old(issued) && issued == old(issued) + {i} && i.target == target && Current(slots, i)
      ensures i.index <= |old(slots)| && forall k :: 0 <= k < i.index ==> !Expired(old(slots)[k], dead)
      ensures i.index < |old(slots)| ==> Expired(old(slots)[i.index], dead)
      ensures i.index < |old(slots)| ==> i.epoch == old(slots)[i.index].epoch + 1
      ensures i.index < |old(slots)| ==> slots == old(slots)[i.index := Slot(Some(target), i.epoch)]
      ensures i.index == |old(slots)| ==> i.epoch == 0 && slots == old(slots) + [Slot(Some(target), 0)]
      ensures h == MakeHandle(code, i.index, i.epoch)
      ensures forall j :: j in old(issued) && Current(old(slots), j) && !Expired(old(slots)[j.index], dead) ==>
        Current(slots, j)
    {
      hide MakeHandle;
      for k := 0 to |slots|
        invariant slots == old(slots) && issued == old(issued)
        invariant forall j :: 0 <= j < k ==> !Expired(slots[j], dead)
      {
        if slots[k].target.Some? && !Expired(slots[k], dead) {
          continue;
        }
        var epoch := slots[k].epoch;
        if Expired(slots[k], dead) {
          epoch := epoch + 1;
        }
        i := Issue(k, epoch, target);
        ReuseSlot(slots, issued, i);
        slots := slots[k := Slot(Some(target), epoch)];
        issued := issued + {i};
        return MakeHandle(code, k, epoch), i;
      }
      i := Issue(|slots|, 0, target);
      slots := slots + [Slot(Some(target), 0)];
      issued := issued + {i};
      h := MakeHandle(code, |slots| - 1, 0);
    }

    /** `get`. */
    method Get(h: nat) returns (r: Option<int>)
      requires Valid()
      ensures r == Resolve(slots, dead, h)
      ensures r.Some? ==> r.value !in dead && exists k :: 0 <= k < |slots| && slots[k].target == r
    {
      var index := GetIndex(h);
      if index >= |slots| {
        return None;
      }
      var epoch := GetEpoch(h);
      if BitAnd(slots[index].epoch, Pow2(EPOCH_BITS) - 1) != epoch {
        return None;
      }
      r := if Expired(slots[index], dead) then None else slots[index].target;
    }

    /** `release`: clears the slot and moves it on to the next epoch, if the epochs agree; any other
        handle changes nothing. */
    method Release(h: nat) returns (ok: bool)
      requires Valid()
      modifies this`slots
      ensures Valid() && Advances(old(slots), slots)
      ensures ok <==> Matches(old(slots), h)
      ensures !ok ==> slots == old(slots)
      ensures ok ==> slots == old(slots)[GetIndex(h) := Slot(None, old(slots)[GetIndex(h)].epoch + 1)]
    {
      hide Pow2, BitAnd, GetIndex, GetEpoch;
      var index := GetIndex(h);
      if index >= |slots| {
        return false;
      }
      if BitAnd(slots[index].epoch, Pow2(EPOCH_BITS) - 1) != GetEpoch(h) {
        return false;
      }
      slots := slots[index := Slot(None, slots[index].epoch + 1)];
      ok := true;
    }

    /** An object loses its last strong reference. */
    method Expire(target: int)
      requires Valid()
      modifies this`dead
      ensures Valid() && dead == old(dead) + {target}
    {
      dead := dead + {target};
    }
  }

  /** The only handle of a table is released and the slot given out again. */
  method Reissue(t: Table, h: nat, ghost epoch: nat, target: int) returns (h': nat)
    requires t.Valid() && t.dead == {} && |t.slots| == 1 && t.slots[0].epoch == epoch
    requires h == MakeHandle(t.code, 0, epoch)
    modifies t`slots, t`issued
    ensures t.Valid() && t.slots == [Slot(Some(target), epoch + 2)] && h' == MakeHandle(t.code, 0, epoch + 2)
    ensures t.issued == old(t.issued) + {Issue(0, epoch + 2, target)}
  {
    hide MakeHandle, GetIndex, GetEpoch, GetType, BitAnd, Pow2, Consistent;
    EpochTest(t.code, t.slots, Issue(0, epoch, target));
    var ok := t.Release(h);
    ghost var i;
    h', i := t.Allocate(target);
  }

  /** A table in which one slot was given out again 2^19 times: the first handle of all is the same word
      as the last, and resolves to that one's object. */
  method AliasReached(code: nat, first: int, last: int)
    returns (t: Table, early: nat, late: nat, r: Option<int>)
    ensures fresh(t) && t.Valid() && early == late && r == Some(last)
    ensures Issue(0, 0, first) in t.issued && Issue(0, EPOCHS, last) in t.issued
    ensures early == MakeHandle(code, 0, 0) && late == MakeHandle(code, 0, EPOCHS)
  {
    hide MakeHandle, GetIndex, GetEpoch, GetType, BitAnd, Pow2, Consistent;
    t := new Table(code);
    ghost var i;
    early, i := t.Allocate(first);
    late := early;
    for n := 0 to EPOCHS / 2
      invariant t.Valid() && t.code == code && t.dead == {} && fresh(t) && Issue(0, 0, first) in t.issued
      invariant |t.slots| == 1 && t.slots[0].epoch == 2 * n && late == MakeHandle(code, 0, 2 * n)
      invariant n > 0 ==> t.slots == [Slot(Some(last), 2 * n)] && Issue(0, 2 * n, last) in t.issued
    {
      late := Reissue(t, late, 2 * n, last);
    }
    SameWordIff(code, Issue(0, 0, first), Issue(0, EPOCHS, last));
    EpochTest(code, t.slots, Issue(0, EPOCHS, last));
    r := t.Get(early);
  }

  lemma ReuseSlot(slots: seq<Slot>, issued: set<Issue>, i: Issue)
    requires Consistent(slots, issued) && i.index < |slots| && i.epoch == slots[i.index].epoch + 1
    ensures Consistent(slots[i.index := Slot(Some(i.target), i.epoch)], issued + {i}) && i !in issued
  {
  }

  /** A handle that is no longer current never is again. */
  lemma StaleForever(slots: seq<Slot>, slots': seq<Slot>, issued: set<Issue>, i: Issue)
    requires Consistent(slots, issued) && i in issued && !Current(slots, i) && Advances(slots, slots')
    ensures !Current(slots', i)
  {
  }

  // ---------------------------------------------------------------- kinds of handles

  datatype Kind = Task | Thread | Port | VmRegion | IrqHandler

  function Code(k: Kind): nat {
    match k
    case Task => 1
    case Thread => 2
    case Port => 3
    case VmRegion => 4
    case IrqHandler => 5
  }

  /** The type code that the release function of each kind asks for. */
  function ReleaseCode(k: Kind): nat {
    if k == IrqHandler then Code(Port) else Code(k)
  }

  lemma TypeOf(k: Kind, index: nat, epoch: nat)
    ensures GetType(MakeHandle(Code(k), index, epoch)) == Code(k)
  {
    hide MakeHandle, GetType, GetIndex, GetEpoch;
    RoundTrip(Code(k), index, epoch);
  }

  /** Looking up a handle of the wrong kind is refused. */
  lemma GetAccepts(k: Kind, k': Kind, index: nat, epoch: nat)
    ensures GetType(MakeHandle(Code(k), index, epoch)) == Code(k') <==> k == k'
  {
    hide MakeHandle, GetType;
    TypeOf(k, index, epoch);
  }

  /** A kind's own handles can be released exactly when the kind is not the interrupt handler, whose
      release function accepts port handles instead. */
  lemma ReleaseAccepts(k: Kind, index: nat, epoch: nat)
    ensures GetType(MakeHandle(Code(k), index, epoch)) == ReleaseCode(k) <==> k != IrqHandler
    ensures GetType(MakeHandle(Code(k), index, epoch)) == ReleaseCode(IrqHandler) <==> k == Port
  {
    hide MakeHandle, GetType;
    TypeOf(k, index, epoch);
  }
}
