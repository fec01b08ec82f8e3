/** Exports in progress, counted per client and overall. Models
    src/export/concurrency-gate.ts. */
module ExportGate {

  import opened Wrappers

  datatype Rejection = PerClient | Total

  /** What an export holds; releasing it twice frees one slot only. */
  class Slot {
    const client: string
    var released: bool

    constructor (client: string)
      ensures this.client == client && !released
    {
      this.client, released := client, false;
    }
  }

  function CountOf(perClient: map<string, int>, client: string): int {
    if client in perClient then perClient[client] else 0
  }

  ghost function Of(open: set<Slot>, client: string): set<Slot> {
    set s | s in open && s.client == client
  }

  ghost function Pick(keys: set<string>): (k: string)
    requires keys != {}
    ensures k in keys
  {
    var k :| k in keys;
    k
  }

  ghost function Sum(perClient: map<string, int>, keys: set<string>): int
    requires keys <= perClient.Keys
  {
    if keys == {} then 0
    else perClient[Pick(keys)] + Sum(perClient, keys - {Pick(keys)})
  }

  /** Slots counted client by client are counted once each. */
  lemma {:induction false} SumIsCount(perClient: map<string, int>, keys: set<string>, open: set<Slot>)
    requires keys <= perClient.Keys
    requires forall k | k in keys :: perClient[k] == |Of(open, k)|
    requires forall s | s in open :: s.client in keys
    ensures Sum(perClient, keys) == |open|
  {
    if keys == {} {
      assert open == {};
    } else {
      var k := Pick(keys);
      var rest := open - Of(open, k);
      forall c | c in keys - {k} ensures Of(rest, c) == Of(open, c) {
      }
      SumIsCount(perClient, keys - {k}, rest);
      assert |open| == |Of(open, k)| + |rest| by {
        assert open == Of(open, k) + rest;
      }
    }
  }

  /** The total is the number of slots, and each client has its own count, no entry being
      kept at zero. */
  ghost predicate Counts(perClient: map<string, int>, total: int, open: set<Slot>) {
    && total == |open|
    && (forall c | c in perClient :: perClient[c] > 0)
    && forall c :: CountOf(perClient, c) == |Of(open, c)|
  }

  ghost predicate Within(perClient: map<string, int>, total: int, open: set<Slot>, maxPerClient: int, maxTotal: int) {
    (open != {} ==> total <= maxTotal) && forall c | c in perClient :: perClient[c] <= maxPerClient
  }

  lemma OneMore(before: set<Slot>, s: Slot)
    requires s !in before
    ensures Of(before + {s}, s.client) == Of(before, s.client) + {s}
    ensures forall c | c != s.client :: Of(before + {s}, c) == Of(before, c)
  {
  }

  lemma CountsTaken(perClient: map<string, int>, total: int, open: set<Slot>, s: Slot)
    requires Counts(perClient, total, open) && s !in open
    ensures Counts(perClient[s.client := CountOf(perClient, s.client) + 1], total + 1, open + {s})
  {
    OneMore(open, s);
  }

  lemma WithinTaken(perClient: map<string, int>, total: int, open: set<Slot>, s: Slot, maxPerClient: int, maxTotal: int)
    requires Within(perClient, total, open, maxPerClient, maxTotal)
    requires CountOf(perClient, s.client) < maxPerClient && total < maxTotal
    ensures Within(perClient[s.client := CountOf(perClient, s.client) + 1], total + 1, open + {s}, maxPerClient, maxTotal)
  {
  }

  lemma CountsFreed(perClient: map<string, int>, total: int, open: set<Slot>, s: Slot)
    requires Counts(perClient, total, open + {s}) && s !in open
    ensures s.client in perClient
    ensures var left := perClient[s.client] - 1;
            Counts(if left <= 0 then perClient - {s.client} else perClient[s.client := left], total - 1, open)
  {
    OneMore(open, s);
    var left := perClient[s.client] - 1;
    assert left == |Of(open, s.client)|;
  }

  class ExportConcurrencyGate {
    const maxPerClient: int
    const maxTotal: int
    var perClient: map<string, int>
    var total: int
    /** The slots handed out, and those of them not released. */
    ghost var issued: set<Slot>
    ghost var open: set<Slot>

    constructor (maxPerClient: int, maxTotal: int)
      ensures this.maxPerClient == maxPerClient && this.maxTotal == maxTotal
      ensures Valid() && open == {} && issued == {}
    {
      this.maxPerClient, this.maxTotal := maxPerClient, maxTotal;
      perClient, total, issued, open := map[], 0, {}, {};
    }

    /** The total is the number of slots not released, and each client has its own count,
        no entry being kept at zero. */
    ghost predicate Valid()
      reads this, issued
    {
      && open == (set s | s in issued && !s.released)
      && Counts(perClient, total, open) && Within(perClient, total, open, maxPerClient, maxTotal)
    }

    /** Takes a slot when both ceilings allow it; nothing changes otherwise. */
    method TryAcquire(client: string) returns (slot: Slot?, reason: Rejection)
      requires Valid()
      modifies this
      ensures Valid()
      ensures slot == null <==> old(|Of(open, client)|) >= maxPerClient || old(|open|) >= maxTotal
      ensures slot == null ==>
                (reason.PerClient? <==> old(|Of(open, client)|) >= maxPerClient)
                && open == old(open) && issued == old(issued)
      ensures slot != null ==>
                fresh(slot) && slot.client == client && !slot.released
                && open == old(open) + {slot} && issued == old(issued) + {slot}
    {
      var current := CountOf(perClient, client);
      if current >= maxPerClient {
        return null, PerClient;
      }
      if total >= maxTotal {
        return null, Total;
      }
      reason := Total;
      slot := Take(client);
    }

    static lemma OpenTaken(issued: set<Slot>, slot: Slot)
      requires !slot.released
      ensures (set s | s in issued + {slot} && !s.released) == (set s | s in issued && !s.released) + {slot}
    {
    }

    /** A new slot, counted for its client and in the total. */
    method Take(client: string) returns (slot: Slot)
      requires Valid() && CountOf(perClient, client) < maxPerClient && total < maxTotal
      modifies this
      ensures Valid()
      ensures fresh(slot) && slot.client == client && !slot.released
      ensures open == old(open) + {slot} && issued == old(issued) + {slot}
    {
      slot := new Slot(client);
      Enter(slot);
    }

    /** Counts a slot for its client and in the total. */
    method Enter(slot: Slot)
      requires Valid() && slot !in issued && !slot.released
      requires CountOf(perClient, slot.client) < maxPerClient && total < maxTotal
      modifies this
      ensures Valid() && open == old(open) + {slot} && issued == old(issued) + {slot}
    {
      OpenTaken(issued, slot);
      CountsTaken(perClient, total, open, slot);
      WithinTaken(perClient, total, open, slot, maxPerClient, maxTotal);
      perClient := perClient[slot.client := CountOf(perClient, slot.client) + 1];
      total, issued, open := total + 1, issued + {slot}, open + {slot};
    }

    /** Frees the slot the first time; any other call changes nothing. */
    method Release(slot: Slot)
      requires Valid() && slot in issued
      modifies this, slot
      ensures Valid() && slot.released && issued == old(issued)
      ensures open == old(open) - {slot}
      ensures old(slot.released) ==> open == old(open) && total == old(total) && perClient == old(perClient)
    {
      if slot.released {
        return;
      }
      slot.released := true;
      open := open - {slot};
      total := total - 1;
      assert old(open) == open + {slot};
      CountsFreed(perClient, old(total), open, slot);
      var remaining := (if slot.client in perClient then perClient[slot.client] else 1) - 1;
      if remaining <= 0 {
        perClient := perClient - {slot.client};
      } else {
        perClient := perClient[slot.client := remaining];
      }
    }

    /** The total is always the sum of the per-client counts, within both ceilings. */
    lemma TotalIsSum()
      requires Valid()
      ensures total == Sum(perClient, perClient.Keys) == |open|
      ensures open != {} ==> total <= maxTotal
      ensures forall c :: CountOf(perClient, c) <= maxPerClient || CountOf(perClient, c) == 0
    {
      forall s | s in open ensures s.client in perClient.Keys {
        assert s in Of(open, s.client);
      }
      SumIsCount(perClient, perClient.Keys, open);
    }

    /** Exports in progress, of one client or overall. */
    method ActiveCount(client: Option<string>) returns (n: int)
      requires Valid()
      ensures n == if client.None? then |open| else |Of(open, client.value)|
    {
      n := if client.None? then total else CountOf(perClient, client.value);
    }
  }
}
