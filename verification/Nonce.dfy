/** Durable nonce counters, one per (did, scope). */
module Nonce {
  import opened Common
  import Decimal
  import Payload

  type Key = (Text, Text)

  /** 2**63 - 1, the largest integer SQLite stores. */
  const MAX_STORABLE_NONCE: nat := 0x7FFF_FFFF_FFFF_FFFF

  function Stored(table: map<Key, nat>, key: Key): nat {
    if key in table then table[key] else 0
  }

  function Next(stored: nat, floor: nat): nat {
    Max(stored, floor) + 1
  }

  /** Every storable nonce has at most nineteen digits, so the digit check after the storage check
      never fires. */
  lemma StorableNoncesAreValid(nonce: nat)
    requires nonce <= MAX_STORABLE_NONCE
    ensures Payload.ValidNonce(nonce)
  {
    assert Decimal.Pow10(10) == 10_000_000_000;
    PowersOfTen(10, 9);
    Decimal.PrintLength(nonce, 19);
  }

  lemma {:induction false} PowersOfTen(i: nat, j: nat)
    ensures Decimal.Pow10(i + j) == Decimal.Pow10(i) * Decimal.Pow10(j)
  {
    if i > 0 {
      PowersOfTen(i - 1, j);
      assert Decimal.Pow10(i + j) == 10 * Decimal.Pow10(i - 1 + j);
    }
  }

  /** Where SQLite can fail inside a transaction: busy, unencodable text, disk. The transaction is then
      rolled back. */
  datatype Stage = AtBegin | AtLookup | AtUpsert | AtCommit

  type Fault = Option<Stage>

  /** The fault is met by a transaction that writes, or by one that only looks. */
  predicate Hits(fault: Fault, writes: bool) {
    fault.Some? && (fault.value.AtUpsert? ==> writes)
  }

  /** The fault is met before the stored value is known. */
  predicate HitsEarly(fault: Fault) {
    fault.Some? && (fault.value.AtBegin? || fault.value.AtLookup?)
  }

  datatype ReserveResult = Reserved(nonce: nat) | BadArgument | Exhausted | TooManyDigits | StorageFailed

  datatype ObserveResult = Observed(nonce: nat) | Invalid | NotStorable | ObserveFailed

  class NonceStore {
    var table: map<Key, nat>

    constructor ()
      ensures table == map[]
    {
      table := map[];
    }

    method Current(did: Text, scope: Text) returns (n: nat)
      ensures n == Stored(table, (did, scope))
    {
      return if (did, scope) in table then table[(did, scope)] else 0;
    }

    /** `reserve`: the next nonce above the stored value and the floor, persisted before it is returned. */
    method Reserve(did: Text, scope: Text, floor: int, fault: Fault) returns (res: ReserveResult)
      modifies this`table
      ensures res.BadArgument? <==> did == [] || scope == [] || floor < 0
      ensures var sound, fits := did != [] && scope != [] && floor >= 0,
                                 Max(old(Stored(table, (did, scope))), floor) < 9_223_372_036_854_775_807;
              && (res.Reserved? <==> sound && fits && fault.None?)
              && (res.Exhausted? <==> sound && !fits && !HitsEarly(fault))
              && (res.StorageFailed? <==> sound && (if fits then fault.Some? else HitsEarly(fault)))
      ensures res.Reserved? ==>
        && res.nonce == Next(old(Stored(table, (did, scope))), floor)
        && table == old(table)[(did, scope) := res.nonce]
      ensures !res.Reserved? ==> table == old(table) && !res.TooManyDigits?
    {
      if did == [] || scope == [] || floor < 0 {
        return BadArgument;
      }
      if HitsEarly(fault) {
        return StorageFailed;
      }
      var stored := Current(did, scope);
      var next := Max(stored, floor) + 1;
      if next > MAX_STORABLE_NONCE {
        return Exhausted;
      }
      StorableNoncesAreValid(next);
      if !Payload.ValidNonce(next) {
        return TooManyDigits;
      }
      if Hits(fault, true) {
        return StorageFailed;
      }
      table := table[(did, scope) := next];
      return Reserved(next);
    }

    /** `observe`: raise the stored value to a nonce seen elsewhere, never lower it. */
    method Observe(did: Text, scope: Text, nonce: int, fault: Fault) returns (res: ObserveResult)
      modifies this`table
      ensures res.Invalid? <==> !Payload.ValidNonce(nonce)
      ensures var sound, raises := Payload.ValidNonce(nonce), nonce > old(Stored(table, (did, scope)));
              var fits := !raises || nonce <= 9_223_372_036_854_775_807;
              && (res.Observed? <==> sound && fits && !Hits(fault, raises))
              && (res.NotStorable? <==> sound && !fits && !HitsEarly(fault))
              && (res.ObserveFailed? <==> sound && (if fits then Hits(fault, raises) else HitsEarly(fault)))
      ensures res.Observed? ==>
        && res.nonce == Max(old(Stored(table, (did, scope))), nonce)
        && table == if nonce <= old(Stored(table, (did, scope))) then old(table) else old(table)[(did, scope) := nonce]
      ensures !res.Observed? ==> table == old(table)
    {
      if !Payload.ValidNonce(nonce) {
        return Invalid;
      }
      if HitsEarly(fault) {
        return ObserveFailed;
      }
      var stored := Current(did, scope);
      if nonce <= stored {
        return if Hits(fault, false) then ObserveFailed else Observed(stored);
      }
      if nonce > MAX_STORABLE_NONCE {
        return NotStorable;
      }
      if Hits(fault, true) {
        return ObserveFailed;
      }
      table := table[(did, scope) := nonce];
      return Observed(nonce);
    }
  }

  datatype AnnouncementNonce = Got(nonce: nat) | Rejected | Raced | StoreRefused

  /** An explicit nonce that is malformed, below one, or not above the stored value. */
  predicate Unwanted(stored: nat, nonce: Option<int>) {
    nonce.Some? && (!Payload.ValidNonce(nonce.value) || nonce.value < 1 || nonce.value <= stored)
  }

  /** The nonce a call hands out when nobody else is at the store: the explicit one, or the next. */
  function Chosen(stored: nat, nonce: Option<int>): nat
    requires !Unwanted(stored, nonce)
  {
    if nonce.Some? then nonce.value else Next(stored, 0)
  }

  /** A call alone at the store is answered. */
  predicate Grantable(did: Text, room: Text, stored: nat, nonce: Option<int>) {
    did != [] && room != [] && !Unwanted(stored, nonce) && Chosen(stored, nonce) <= MAX_STORABLE_NONCE
  }

  function Granted(table: map<Key, nat>, did: Text, room: Text, nonce: Option<int>): map<Key, nat> {
    var stored := Stored(table, (did, room));
    if Grantable(did, room, stored, nonce) then table[(did, room) := Chosen(stored, nonce)] else table
  }

  /** What SQLite does to the two steps of one call: looking the stored value up, and the transaction. */
  datatype Faults = Faults(lookup: bool, reserve: Fault) {
    predicate Clear() {
      !lookup && reserve.None?
    }
  }

  /** `reserve_announcement_nonce` with nobody else at the store: it is never raced, and hands out the
      chosen nonce unless that is unwanted, past the ceiling, for an empty DID or room, or SQLite fails. */
  method ReserveAnnouncementNonce(store: NonceStore, did: Text, room: Text, nonce: Option<int>, faults: Faults)
    returns (res: AnnouncementNonce)
    modifies store`table
    ensures !res.Raced?
    ensures var stored := old(Stored(store.table, (did, room)));
            && (res.Rejected? <==> !faults.lookup && Unwanted(stored, nonce))
            && (res.Got? <==> faults.Clear() && Grantable(did, room, stored, nonce))
            && (res.Got? ==> res.nonce == Chosen(stored, nonce) > stored)
    ensures store.table == if faults.Clear() then Granted(old(store.table), did, room, nonce) else old(store.table)
  {
    if faults.lookup {
      return StoreRefused;
    }
    var current := store.Current(did, room);
    var floor := 0;
    if nonce.Some? {
      var chosen := nonce.value;
      if !Payload.ValidNonce(chosen) || chosen < 1 || chosen <= current {
        return Rejected;
      }
      floor := chosen - 1;
    }
    var r := store.Reserve(did, room, floor, faults.reserve);
    if !r.Reserved? {
      return StoreRefused;
    }
    if nonce.Some? && r.nonce != nonce.value {
      return Raced;
    }
    return Got(r.nonce);
  }
}
