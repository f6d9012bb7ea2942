/** A ban list of the game server: a map for membership and a vector that lookups are served from. */
module BanRegistry {
  import opened Wrappers

  datatype Player = Player(ipAddress: string, playerName: string, reason: string, bannedByUserName: string)

  /** The contents of the map and of the vector. */
  datatype Bans = Bans(byAddress: map<string, Player>, entries: seq<Player>)

  // ----- Specification -----

  /** `find_if` by address; the length when there is no such entry. */
  function IndexOf(entries: seq<Player>, ip: string): (i: nat)
    ensures i <= |entries|
    ensures forall k :: 0 <= k < i ==> entries[k].ipAddress != ip
    ensures i < |entries| ==> entries[i].ipAddress == ip
  {
    if entries == [] || entries[0].ipAddress == ip then 0 else 1 + IndexOf(entries[1..], ip)
  }

  function Added(b: Bans, ip: string, player: Player): Bans {
    if ip in b.byAddress then b else Bans(b.byAddress[ip := player], b.entries + [player])
  }

  /** The range erase runs to the end of the vector: the entry and everything behind it goes. */
  function Removed(b: Bans, ip: string): Bans {
    if ip !in b.byAddress then b else Bans(b.byAddress - {ip}, b.entries[..IndexOf(b.entries, ip)])
  }

  function LookedUp(b: Bans, ip: string): Option<Player> {
    var i := IndexOf(b.entries, ip);
    if i < |b.entries| then Some(b.entries[i]) else None
  }

  const EMPTY := Bans(map[], [])

  // ----- The object -----

  class BanList {
    var byAddress: map<string, Player>
    var entries: seq<Player>

    function Contents(): Bans
      reads this
    {
      Bans(byAddress, entries)
    }

    constructor ()
      ensures Contents() == EMPTY
    {
      byAddress := map[];
      entries := [];
    }

    method AddIpAddress(ip: string, player: Player) returns (added: bool)
      modifies this
      ensures added == (ip !in old(byAddress))
      ensures Contents() == Added(old(Contents()), ip, player)
      ensures !added ==> byAddress == old(byAddress) && entries == old(entries)
      ensures added ==> byAddress == old(byAddress)[ip := player] && entries == old(entries) + [player]
    {
      if ip in byAddress {
        return false;
      }
      byAddress := byAddress[ip := player];
      entries := entries + [player];
      return true;
    }

    method RemoveIpAddress(ip: string) returns (removed: bool)
      modifies this
      ensures removed == (ip in old(byAddress))
      ensures Contents() == Removed(old(Contents()), ip)
      ensures !removed ==> byAddress == old(byAddress) && entries == old(entries)
      ensures removed ==>
                && byAddress == old(byAddress) - {ip}
                && entries <= old(entries) && (forall k :: 0 <= k < |entries| ==> entries[k].ipAddress != ip)
                && (|entries| < |old(entries)| ==> old(entries)[|entries|].ipAddress == ip)
    {
      if ip !in byAddress {
        return false;
      }
      byAddress := byAddress - {ip};
      var found := 0;
      while found < |entries| && entries[found].ipAddress != ip
        invariant 0 <= found <= |entries|
        invariant IndexOf(entries, ip) == found + IndexOf(entries[found..], ip)
      {
        assert entries[found..][1..] == entries[found + 1..];
        found := found + 1;
      }
      entries := entries[..found];
      return true;
    }

    method GetBannedPlayerData(ip: string) returns (r: Option<Player>)
      ensures r == LookedUp(Contents(), ip)
      ensures r.None? ==> forall k :: 0 <= k < |entries| ==> entries[k].ipAddress != ip
      ensures r.Some? ==>
                var i := IndexOf(entries, ip);
                i < |entries| && entries[i] == r.value && r.value.ipAddress == ip
    {
      for i := 0 to |entries|
        invariant IndexOf(entries, ip) == i + IndexOf(entries[i..], ip)
      {
        if ip == entries[i].ipAddress {
          return Some(entries[i]);
        }
        assert entries[i..][1..] == entries[i + 1..];
      }
      return None;
    }
  }

  // ----- Runs -----

  datatype Op = Add(ip: string, player: Player) | Remove(ip: string)

  function Step(b: Bans, op: Op): Bans {
    match op
    case Add(ip, player) => Added(b, ip, player)
    case Remove(ip) => Removed(b, ip)
  }

  function Run(b: Bans, ops: seq<Op>): Bans
    decreases |ops|
  {
    if ops == [] then b else Run(Step(b, ops[0]), ops[1..])
  }

  /** Each record carries its key as its address. */
  predicate WellKeyed(ops: seq<Op>) {
    forall op <- ops :: op.Add? ==> op.player.ipAddress == op.ip
  }

  predicate Distinct(entries: seq<Player>) {
    forall i, j :: 0 <= i < j < |entries| ==> entries[i].ipAddress != entries[j].ipAddress
  }

  /** Every vector entry is the map's record for its address, and no address appears twice. */
  predicate Sound(b: Bans) {
    && Distinct(b.entries)
    && forall e <- b.entries :: e.ipAddress in b.byAddress && b.byAddress[e.ipAddress] == e
  }

  lemma StepKeepsSound(b: Bans, op: Op)
    requires Sound(b) && (op.Add? ==> op.player.ipAddress == op.ip)
    ensures Sound(Step(b, op))
  {
    if op.Remove? && op.ip in b.byAddress {
      var i := IndexOf(b.entries, op.ip);
      forall e | e in b.entries[..i] ensures e in b.entries && e.ipAddress != op.ip {
        var k :| 0 <= k < i && b.entries[k] == e;
      }
    }
  }

  /** An effective addition keeps soundness exactly when the record carries its key as address, or is the map's record
      for a ban that the vector has lost. */
  lemma AddKeepsSoundIff(b: Bans, ip: string, player: Player)
    requires Sound(b) && ip !in b.byAddress
    ensures Sound(Added(b, ip, player)) <==>
            player.ipAddress == ip
            || (player.ipAddress in b.byAddress && b.byAddress[player.ipAddress] == player
                && LookedUp(b, player.ipAddress).None?)
  {
    var after, n := Added(b, ip, player), |b.entries|;
    assert after.entries[n] == player && player in after.entries;
    var i := IndexOf(b.entries, player.ipAddress);
    assert i < n ==> after.entries[i] == b.entries[i];
    assert forall k :: 0 <= k < n ==> b.entries[k] in b.entries;
  }

  /** Soundness holds along every run. */
  lemma {:induction false} RunKeepsSound(b: Bans, ops: seq<Op>)
    requires Sound(b) && WellKeyed(ops)
    ensures Sound(Run(b, ops))
    decreases |ops|
  {
    if ops != [] {
      assert ops[0] in ops;
      StepKeepsSound(b, ops[0]);
      RunKeepsSound(Step(b, ops[0]), ops[1..]);
    }
  }

  /** Whatever run came before, a reported player is the map's record for that address. */
  lemma LookupIsSound(ops: seq<Op>, ip: string)
    requires WellKeyed(ops)
    ensures var b := Run(EMPTY, ops);
            LookedUp(b, ip).Some? ==> ip in b.byAddress && LookedUp(b, ip) == Some(b.byAddress[ip])
  {
    RunKeepsSound(EMPTY, ops);
    var b := Run(EMPTY, ops);
    var i := IndexOf(b.entries, ip);
    if i < |b.entries| {
      assert b.entries[i] in b.entries;
    }
  }

  lemma {:induction false} RunConcat(b: Bans, first: seq<Op>, next: seq<Op>)
    ensures Run(b, first + next) == Run(Run(b, first), next)
    decreases |first|
  {
    if first == [] {
      assert first + next == next;
    } else {
      assert (first + next)[1..] == first[1..] + next;
      RunConcat(Step(b, first[0]), first[1..], next);
    }
  }

  predicate NeverAdds(ops: seq<Op>, ip: string) {
    forall op <- ops :: op.Add? ==> op.ip != ip
  }

  lemma {:induction false} AbsentStaysAbsent(b: Bans, ops: seq<Op>, ip: string)
    requires ip !in b.byAddress && NeverAdds(ops, ip)
    ensures ip !in Run(b, ops).byAddress
    decreases |ops|
  {
    if ops != [] {
      assert ops[0] in ops;
      AbsentStaysAbsent(Step(b, ops[0]), ops[1..], ip);
    }
  }

  /** A removed address is not reported again before it is added again. */
  lemma RemovedIsNotReported(before: seq<Op>, ip: string, after: seq<Op>)
    requires WellKeyed(before + [Remove(ip)] + after) && NeverAdds(after, ip)
    ensures LookedUp(Run(EMPTY, before + [Remove(ip)] + after), ip).None?
  {
    var b := Run(EMPTY, before);
    RunConcat(EMPTY, before + [Remove(ip)], after);
    RunConcat(EMPTY, before, [Remove(ip)]);
    assert [Remove(ip)][1..] == [];
    AbsentStaysAbsent(Removed(b, ip), after, ip);
    LookupIsSound(before + [Remove(ip)] + after, ip);
  }

  // ----- The exact effect of a removal -----

  lemma IndexIsUnique(entries: seq<Player>, ip: string, i: nat)
    requires i < |entries| && entries[i].ipAddress == ip
    requires forall k :: 0 <= k < i ==> entries[k].ipAddress != ip
    ensures IndexOf(entries, ip) == i
  {
  }

  /** A removal hides every address listed at or behind the removed one, and no other. */
  lemma RemovalHides(b: Bans, ip: string, other: string)
    requires ip in b.byAddress
    ensures LookedUp(Removed(b, ip), other) ==
            if IndexOf(b.entries, other) < IndexOf(b.entries, ip) then LookedUp(b, other) else None
  {
    var cut, i := IndexOf(b.entries, ip), IndexOf(b.entries, other);
    var left := b.entries[..cut];
    if i < cut {
      IndexIsUnique(left, other, i);
    }
  }

  /** Map and vector hold the same addresses. */
  predicate InStep(b: Bans) {
    Sound(b) && forall ip <- b.byAddress.Keys :: IndexOf(b.entries, ip) < |b.entries|
  }

  /** A removal that hits nothing or the last entry. */
  predicate RemovesLast(b: Bans, op: Op) {
    op.Remove? ==> op.ip !in b.byAddress || (b.entries != [] && b.entries[|b.entries| - 1].ipAddress == op.ip)
  }

  /** Map and vector stay in step exactly when the step is an addition, or a removal of the last entry or of
      an address that is not banned. */
  lemma StepStaysInStepIff(b: Bans, op: Op)
    requires InStep(b) && (op.Add? ==> op.player.ipAddress == op.ip)
    ensures InStep(Step(b, op)) <==> RemovesLast(b, op)
  {
    StepKeepsSound(b, op);
    match op {
      case Add(ip, player) => AddStaysInStep(b, ip, player);
      case Remove(ip) =>
        if ip in b.byAddress {
          RemoveStaysInStepIff(b, ip);
        }
    }
  }

  lemma AddStaysInStep(b: Bans, ip: string, player: Player)
    requires InStep(b) && player.ipAddress == ip && Sound(Added(b, ip, player))
    ensures InStep(Added(b, ip, player))
  {
    var after := Added(b, ip, player);
    if ip !in b.byAddress {
      forall x | x in after.byAddress.Keys ensures IndexOf(after.entries, x) < |after.entries| {
        var i := if x == ip then |b.entries| else IndexOf(b.entries, x);
        assert after.entries[i].ipAddress == x;
      }
    }
  }

  lemma RemoveStaysInStepIff(b: Bans, ip: string)
    requires InStep(b) && ip in b.byAddress && Sound(Removed(b, ip))
    ensures InStep(Removed(b, ip)) <==> b.entries[|b.entries| - 1].ipAddress == ip
  {
    hide IndexOf;
    var cut, after, last := IndexOf(b.entries, ip), Removed(b, ip), b.entries[|b.entries| - 1];
    if last.ipAddress == ip {
      assert cut == |b.entries| - 1;
      forall x | x in after.byAddress.Keys ensures IndexOf(after.entries, x) < |after.entries| {
        RemovalHides(b, ip, x);
        var i := IndexOf(b.entries, x);
        assert b.entries[i].ipAddress == x && i != cut;
      }
    } else {
      assert last in b.entries;
      RemovalHides(b, ip, last.ipAddress);
      IndexIsUnique(b.entries, last.ipAddress, |b.entries| - 1);
    }
  }

  /** Map and vector are in step after every operation of the run. */
  predicate AlwaysInStep(b: Bans, ops: seq<Op>)
    decreases |ops|
  {
    InStep(b) && (ops != [] ==> AlwaysInStep(Step(b, ops[0]), ops[1..]))
  }

  /** Every removal of the run hits nothing or the entry that is last at that moment. */
  predicate AlwaysRemovesLast(b: Bans, ops: seq<Op>)
    decreases |ops|
  {
    ops != [] ==> RemovesLast(b, ops[0]) && AlwaysRemovesLast(Step(b, ops[0]), ops[1..])
  }

  /** The intended effect holds along a whole run exactly when each of its removals targets the last entry. */
  lemma {:induction false} RunStaysInStepIff(b: Bans, ops: seq<Op>)
    requires InStep(b) && WellKeyed(ops)
    ensures AlwaysInStep(b, ops) <==> AlwaysRemovesLast(b, ops)
    decreases |ops|
  {
    if ops != [] {
      assert ops[0] in ops;
      StepStaysInStepIff(b, ops[0]);
      if InStep(Step(b, ops[0])) {
        RunStaysInStepIff(Step(b, ops[0]), ops[1..]);
      }
    }
  }

  // ----- Lost bans -----

  /** The map has the address, so it cannot be added again, but the lookup does not report it. */
  predicate Lost(b: Bans, ip: string) {
    ip in b.byAddress && LookedUp(b, ip).None?
  }

  lemma StepKeepsLost(b: Bans, op: Op, ip: string)
    requires Lost(b, ip) && op != Remove(ip) && (op.Add? ==> op.player.ipAddress == op.ip)
    ensures Lost(Step(b, op), ip)
  {
    var after := Step(b, op).entries;
    forall k | 0 <= k < |after| ensures after[k].ipAddress != ip {
      if k < |b.entries| { assert after[k] == b.entries[k]; }
    }
  }

  /** A lost ban stays lost, whatever is added or removed, until its own address is removed. */
  lemma {:induction false} LostStaysLost(b: Bans, ops: seq<Op>, ip: string)
    requires Lost(b, ip) && WellKeyed(ops) && Remove(ip) !in ops
    ensures Lost(Run(b, ops), ip)
    decreases |ops|
  {
    if ops != [] {
      assert ops[0] in ops;
      StepKeepsLost(b, ops[0], ip);
      LostStaysLost(Step(b, ops[0]), ops[1..], ip);
    }
  }

  /** Removing an entry that is not the last one loses the last one. */
  lemma EarlyRemovalLosesLast(b: Bans, ip: string)
    requires InStep(b) && ip in b.byAddress && b.entries[|b.entries| - 1].ipAddress != ip
    ensures Lost(Removed(b, ip), b.entries[|b.entries| - 1].ipAddress)
  {
    var last := b.entries[|b.entries| - 1];
    assert last in b.entries;
    IndexIsUnique(b.entries, last.ipAddress, |b.entries| - 1);
    RemovalHides(b, ip, last.ipAddress);
  }

  /** What a removal loses, when map and vector were in step: exactly the addresses listed behind the removed one, which
      all stay banned in the map. */
  lemma RemovalLosesIff(b: Bans, ip: string, other: string)
    requires InStep(b) && ip in b.byAddress
    ensures Lost(Removed(b, ip), other) <==>
            other in b.byAddress && IndexOf(b.entries, ip) < IndexOf(b.entries, other)
    ensures other != ip && other in b.byAddress ==>
              other in Removed(b, ip).byAddress && Removed(b, ip).byAddress[other] == b.byAddress[other]
  {
    hide IndexOf;
    RemovalHides(b, ip, other);
    SameIndexSameAddress(b.entries, ip, other);
  }

  lemma SameIndexSameAddress(entries: seq<Player>, ip: string, other: string)
    requires IndexOf(entries, ip) < |entries|
    ensures IndexOf(entries, ip) == IndexOf(entries, other) <==> ip == other
  {
    hide IndexOf;
  }

  // ----- What a whole run leaves reported -----

  function StateAt(ops: seq<Op>, k: nat): Bans
    requires k <= |ops|
  {
    Run(EMPTY, ops[..k])
  }

  lemma StateAfter(ops: seq<Op>, k: nat)
    requires k < |ops|
    ensures StateAt(ops, k + 1) == Step(StateAt(ops, k), ops[k])
  {
    assert ops[..k + 1] == ops[..k] + [ops[k]];
    RunConcat(EMPTY, ops[..k], [ops[k]]);
    assert [ops[k]][1..] == [];
  }

  lemma StateIsSound(ops: seq<Op>, k: nat)
    requires WellKeyed(ops) && k <= |ops|
    ensures Sound(StateAt(ops, k))
  {
    forall op | op in ops[..k] ensures op in ops {
    }
    RunKeepsSound(EMPTY, ops[..k]);
  }

  /** Operation `i` adds the record: the address is not in the map at that moment. */
  predicate TakesEffect(ops: seq<Op>, i: nat, ip: string, player: Player) {
    i < |ops| && ops[i] == Add(ip, player) && ip !in StateAt(ops, i).byAddress
  }

  /** Operation `j` removes an entry listed at or before the address. */
  predicate Cuts(ops: seq<Op>, j: nat, ip: string)
    requires j < |ops|
  {
    var b := StateAt(ops, j);
    ops[j].Remove? && ops[j].ip in b.byAddress && IndexOf(b.entries, ops[j].ip) <= IndexOf(b.entries, ip)
  }

  /** Among the first `k` operations one added the record, and none behind it cut the vector at or before it. */
  ghost predicate AddedAndNotCut(ops: seq<Op>, k: nat, ip: string, player: Player)
    requires k <= |ops|
  {
    exists i: nat :: i < k && TakesEffect(ops, i, ip, player) && NotCut(ops, i + 1, k, ip)
  }

  predicate NotCut(ops: seq<Op>, from: nat, to: nat, ip: string)
    requires to <= |ops|
  {
    forall j :: from <= j < to ==> !Cuts(ops, j, ip)
  }

  lemma OneMoreOperation(ops: seq<Op>, k: nat, ip: string, player: Player)
    requires k < |ops|
    ensures AddedAndNotCut(ops, k + 1, ip, player) <==>
            TakesEffect(ops, k, ip, player) || (AddedAndNotCut(ops, k, ip, player) && !Cuts(ops, k, ip))
  {
    hide TakesEffect, Cuts;
    if AddedAndNotCut(ops, k + 1, ip, player) {
      var i: nat :| i < k + 1 && TakesEffect(ops, i, ip, player) && NotCut(ops, i + 1, k + 1, ip);
      if i < k {
        assert NotCut(ops, i + 1, k, ip);
      }
    }
    if AddedAndNotCut(ops, k, ip, player) && !Cuts(ops, k, ip) {
      var i: nat :| i < k && TakesEffect(ops, i, ip, player) && NotCut(ops, i + 1, k, ip);
      assert NotCut(ops, i + 1, k + 1, ip);
    }
    assert NotCut(ops, k + 1, k + 1, ip);
  }

  /** An effective addition makes the record findable and leaves the other lookups alone. */
  lemma AddReports(b: Bans, ip: string, player: Player, other: string)
    requires Sound(b) && ip !in b.byAddress && player.ipAddress == ip
    ensures LookedUp(b, ip).None?
    ensures LookedUp(Added(b, ip, player), other) == if other == ip then Some(player) else LookedUp(b, other)
  {
    hide IndexOf;
    var after := Added(b, ip, player).entries;
    var i := if other == ip then |b.entries| else IndexOf(b.entries, other);
    if i < |after| && after[i].ipAddress == other {
      assert forall k :: 0 <= k < |b.entries| ==> b.entries[k] in b.entries;
      IndexIsUnique(after, other, i);
    }
  }

  /** After any run a player is reported for an address exactly when some operation added that record and no later
      one removed an entry listed at or before it. */
  lemma {:induction false} ReportedIff(ops: seq<Op>, k: nat, ip: string, player: Player)
    requires WellKeyed(ops) && k <= |ops|
    ensures LookedUp(StateAt(ops, k), ip) == Some(player) <==> AddedAndNotCut(ops, k, ip, player)
  {
    if k == 0 {
      assert ops[..0] == [];
    } else {
      hide AddedAndNotCut, LookedUp, IndexOf, StateAt, Sound;
      var b, op := StateAt(ops, k - 1), ops[k - 1];
      ReportedIff(ops, k - 1, ip, player);
      OneMoreOperation(ops, k - 1, ip, player);
      StateAfter(ops, k - 1);
      StateIsSound(ops, k - 1);
      assert op in ops;
      match op {
        case Add(x, p) => if x !in b.byAddress { AddReports(b, x, p, ip); }
        case Remove(x) => if x in b.byAddress { RemovalHides(b, x, ip); }
      }
    }
  }

  /** The same for the run as a whole. */
  lemma RunReportsIff(ops: seq<Op>, ip: string, player: Player)
    requires WellKeyed(ops)
    ensures LookedUp(Run(EMPTY, ops), ip) == Some(player) <==> AddedAndNotCut(ops, |ops|, ip, player)
  {
    assert ops[..|ops|] == ops;
    ReportedIff(ops, |ops|, ip, player);
  }

  // ----- What a whole run leaves banned -----

  predicate NotRemoved(ops: seq<Op>, from: nat, to: nat, ip: string)
    requires to <= |ops|
  {
    forall j :: from <= j < to ==> ops[j] != Remove(ip)
  }

  /** Among the first `k` operations one added the address, and none behind it removed it. */
  ghost predicate AddedAndNotRemoved(ops: seq<Op>, k: nat, ip: string)
    requires k <= |ops|
  {
    exists i: nat :: i < k && ops[i].Add? && ops[i].ip == ip && NotRemoved(ops, i + 1, k, ip)
  }

  /** Whatever the vector has lost, the map holds an address after a run exactly when some operation added it and no
      later one removed it. */
  lemma {:induction false} BannedIff(ops: seq<Op>, k: nat, ip: string)
    requires k <= |ops|
    ensures ip in StateAt(ops, k).byAddress <==> AddedAndNotRemoved(ops, k, ip)
  {
    if k == 0 {
      assert ops[..0] == [];
    } else {
      hide AddedAndNotRemoved, StateAt;
      BannedIff(ops, k - 1, ip);
      StateAfter(ops, k - 1);
      OneMoreAdded(ops, k - 1, ip);
    }
  }

  lemma OneMoreAdded(ops: seq<Op>, k: nat, ip: string)
    requires k < |ops|
    ensures AddedAndNotRemoved(ops, k + 1, ip) <==>
            (ops[k].Add? && ops[k].ip == ip) || (AddedAndNotRemoved(ops, k, ip) && ops[k] != Remove(ip))
  {
    if AddedAndNotRemoved(ops, k + 1, ip) {
      var i: nat :| i < k + 1 && ops[i].Add? && ops[i].ip == ip && NotRemoved(ops, i + 1, k + 1, ip);
      if i < k {
        assert NotRemoved(ops, i + 1, k, ip);
      }
    }
    if AddedAndNotRemoved(ops, k, ip) && ops[k] != Remove(ip) {
      var i: nat :| i < k && ops[i].Add? && ops[i].ip == ip && NotRemoved(ops, i + 1, k, ip);
      assert NotRemoved(ops, i + 1, k + 1, ip);
    }
    assert NotRemoved(ops, k + 1, k + 1, ip);
  }
}
