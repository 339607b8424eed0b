/**
 SSTORE gas and refunds per revision (EIP-2200 and EIP-3529).

 In the net-cost revisions the cost of a write depends on the value the slot had at the
 start of the transaction. The theorems sum cost and refund over any sequence of writes to
 one slot.
 */
module StorageGas {
  import opened PushDecoding

  datatype Revision =
    | Frontier | Homestead | TangerineWhistle | SpuriousDragon | Byzantium | Constantinople | Petersburg
    | Istanbul | Berlin | London | Paris | Shanghai | Cancun | Prague | Osaka | Experimental

  const COLD_SLOAD_COST := 2100
  const WARM_STORAGE_READ_COST := 100

  datatype StorageCostSpec = StorageCostSpec(netCost: bool, warmAccess: int, set': int, reset: int, clear: int)

  function SpecOf(rev: Revision): (s: StorageCostSpec) {
    match rev
    case Constantinople => StorageCostSpec(true, 200, 20000, 5000, 15000)
    case Istanbul => StorageCostSpec(true, 800, 20000, 5000, 15000)
    case Berlin => StorageCostSpec(true, WARM_STORAGE_READ_COST, 20000, 5000 - COLD_SLOAD_COST, 15000)
    case London | Paris | Shanghai | Cancun | Prague | Osaka | Experimental =>
      StorageCostSpec(true, WARM_STORAGE_READ_COST, 20000, 5000 - COLD_SLOAD_COST, 4800)
    case _ => StorageCostSpec(false, 200, 20000, 5000, 15000)
  }

  datatype StorageStatus =
    | Assigned | Added | Deleted | Modified
    | DeletedAdded | ModifiedDeleted | DeletedRestored | AddedDeleted | ModifiedRestored

  datatype StoreCost = StoreCost(gasCost: int, gasRefund: int)

  /** The table stores 16-bit values. */
  function Int16(x: int): (r: int)
    ensures -0x8000 <= r < 0x8000
    ensures -0x8000 <= x < 0x8000 ==> r == x
  {
    (x + 0x8000) % 0x1_0000 - 0x8000
  }

  function SstoreCost(rev: Revision, status: StorageStatus): (c: StoreCost) {
    var s := SpecOf(rev);
    if !s.netCost then
      match status
      case Added | DeletedAdded | DeletedRestored => StoreCost(s.set', 0)
      case Deleted | ModifiedDeleted | AddedDeleted => StoreCost(s.reset, s.clear)
      case Modified | Assigned | ModifiedRestored => StoreCost(s.reset, 0)
    else
      match status
      case Assigned => StoreCost(s.warmAccess, 0)
      case Added => StoreCost(s.set', 0)
      case Deleted => StoreCost(s.reset, s.clear)
      case Modified => StoreCost(s.reset, 0)
      case DeletedAdded => StoreCost(s.warmAccess, Int16(-s.clear))
      case ModifiedDeleted => StoreCost(s.warmAccess, s.clear)
      case DeletedRestored => StoreCost(s.warmAccess, Int16(s.reset - s.warmAccess - s.clear))
      case AddedDeleted => StoreCost(s.warmAccess, Int16(s.set' - s.warmAccess))
      case ModifiedRestored => StoreCost(s.warmAccess, Int16(s.reset - s.warmAccess))
  }

  /** The status of a write, from the original, current and new value (EIP-2200, Specification). */
  function Classify(original: word, current: word, new': word): (s: StorageStatus) {
    if current == new' then Assigned
    else if original == current then
      if original == 0 then Added else if new' == 0 then Deleted else Modified
    else if original == 0 then
      if new' == 0 then AddedDeleted else Assigned
    else if current == 0 then
      if new' == original then DeletedRestored else DeletedAdded
    else if new' == 0 then ModifiedDeleted
    else if new' == original then ModifiedRestored
    else Assigned
  }

  /**
   The table is the rule of EIP-2200. A write costs a warm access unless it is the first to
   change the slot; clearing an original value earns a refund that writing it again takes
   back; restoring the original value earns back what changing it cost.
   */
  lemma SstoreIsNetRule(rev: Revision, original: word, current: word, new': word)
    requires SpecOf(rev).netCost
    ensures var s, c := SpecOf(rev), SstoreCost(rev, Classify(original, current, new'));
            && c.gasCost == (if current == new' || current != original then s.warmAccess
                             else if original == 0 then s.set' else s.reset)
            && c.gasRefund == (if current == new' then 0
                               else
                                 (if original != 0 && current == 0 then -s.clear else 0)
                                 + (if original != 0 && new' == 0 then s.clear else 0)
                                 + (if new' != original then 0
                                    else if original == 0 then s.set' - s.warmAccess else s.reset - s.warmAccess))
  {
  }

  /** Elsewhere it is the original rule: only writing a value over zero costs more, only writing zero over a value earns. */
  lemma SstoreIsLegacyRule(rev: Revision, original: word, current: word, new': word)
    requires !SpecOf(rev).netCost
    ensures SstoreCost(rev, Classify(original, current, new')) ==
            StoreCost(if current == 0 && new' != 0 then 20000 else 5000, if current != 0 && new' == 0 then 15000 else 0)
  {
  }

  /** EIP-2929 takes the cold access out of a reset; EIP-3529 sets the clear refund to a reset and an access-list key. */
  lemma ScheduleRelations(rev: Revision)
    ensures rev in {London, Paris, Shanghai, Cancun, Prague, Osaka, Experimental} ==>
              SpecOf(rev).netCost && SpecOf(rev).clear == SpecOf(rev).reset + 1900
    ensures rev in {Berlin, London, Paris, Shanghai, Cancun, Prague, Osaka, Experimental} ==>
              SpecOf(rev).reset + COLD_SLOAD_COST == 5000 && SpecOf(rev).warmAccess == 100
    ensures SpecOf(rev).set' == 20000 && (SpecOf(rev).netCost <==> rev !in {Frontier, Homestead, TangerineWhistle, SpuriousDragon, Byzantium, Petersburg})
  {
  }

  datatype Totals = Totals(cost: int, refund: int, current: word)

  /** Cost and refund of a sequence of writes to one slot, starting from the original value. */
  function Writes(rev: Revision, original: word, values: seq<word>): (t: Totals) {
    if values == [] then Totals(0, 0, original)
    else
      var last := |values| - 1;
      var t := Writes(rev, original, values[..last]);
      var c := SstoreCost(rev, Classify(original, t.current, values[last]));
      Totals(t.cost + c.gasCost, t.refund + c.gasRefund, values[last])
  }

  /** What a slot's final value is worth beyond a warm access per write. */
  function Potential(s: StorageCostSpec, original: word, current: word): (p: int) {
    if current == original then 0
    else if original == 0 then s.set' - s.warmAccess
    else if current == 0 then s.reset - s.warmAccess - s.clear
    else s.reset - s.warmAccess
  }

  /** One write moves cost minus refund by a warm access and the change of potential. */
  lemma WriteMovesPotential(rev: Revision, original: word, current: word, new': word)
    requires SpecOf(rev).netCost
    ensures var s := SpecOf(rev);
            var c := SstoreCost(rev, Classify(original, current, new'));
            c.gasCost - c.gasRefund == s.warmAccess + Potential(s, original, new') - Potential(s, original, current)
  {
  }

  ghost predicate Telescopes(rev: Revision, original: word, values: seq<word>) {
    var t, s := Writes(rev, original, values), SpecOf(rev);
    t.cost - t.refund == |values| * s.warmAccess + Potential(s, original, t.current)
  }

  /** In a net-cost revision the total depends only on the number of writes and the final value. */
  lemma {:induction false} NetMeteringTelescopes(rev: Revision, original: word, values: seq<word>)
    requires SpecOf(rev).netCost
    ensures Telescopes(rev, original, values)
  {
    if values != [] {
      var last := |values| - 1;
      var t := Writes(rev, original, values[..last]);
      NetMeteringTelescopes(rev, original, values[..last]);
      WriteMovesPotential(rev, original, t.current, values[last]);
    }
  }

  /** The law holds of exactly the net-cost revisions: elsewhere one unchanged write breaks it. */
  lemma TelescopesIffNetCost(rev: Revision)
    ensures SpecOf(rev).netCost <==> forall original, values :: Telescopes(rev, original, values)
  {
    if SpecOf(rev).netCost {
      forall original, values
        ensures Telescopes(rev, original, values)
      {
        NetMeteringTelescopes(rev, original, values);
      }
    } else {
      assert [0][..0] == [];
      assert Writes(rev, 0, [0]).cost == 5000;
      assert !Telescopes(rev, 0, [0]);
    }
  }

  /** Writing a slot any number of times and restoring it costs one warm access a write, net. */
  lemma RestoredSlotCostsWarmAccesses(rev: Revision, original: word, values: seq<word>)
    requires SpecOf(rev).netCost && Writes(rev, original, values).current == original
    ensures var t := Writes(rev, original, values);
            t.cost - t.refund == |values| * SpecOf(rev).warmAccess
  {
    NetMeteringTelescopes(rev, original, values);
  }

  /** The refund a cleared slot still owes stays covered, so a slot's running refund is never negative. */
  lemma {:induction false} RunningRefundNonNegative(rev: Revision, original: word, values: seq<word>)
    ensures var t := Writes(rev, original, values);
            0 <= t.refund
            && (SpecOf(rev).netCost && original != 0 && t.current == 0 ==> SpecOf(rev).clear <= t.refund)
  {
    if values != [] {
      RunningRefundNonNegative(rev, original, values[..|values| - 1]);
    }
  }
}
