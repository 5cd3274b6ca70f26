/** The bounded store of context payloads: entries expire after a fixed time, and the
    oldest leaves when the store is full. */
module PayloadStore {
  import opened Wrappers

  datatype Key = Key(stateKey: string, handle: string)

  /** One stored payload; `payload` stands for payload and metadata together. */
  datatype Item = Item(key: Key, payload: string, expires: int)

  type Items = seq<Item>

  datatype Config = Config(ttl: nat, capacity: nat)

  ghost predicate ValidConfig(c: Config) {
    c.ttl > 0 && c.capacity > 0
  }

  // ----- the specification on sequences -----

  function Alive(items: Items, now: int): (r: Items)
    ensures forall x :: x in r <==> x in items && x.expires > now
    ensures |r| <= |items|
  {
    if items == [] then []
    else
      var last := items[|items| - 1];
      var front := Alive(items[..|items| - 1], now);
      assert items == items[..|items| - 1] + [last];
      if last.expires > now then front + [last] else front
  }

  function Lookup(items: Items, key: Key): (r: Option<Item>)
    ensures r.Some? ==> r.value in items && r.value.key == key
    ensures r.None? ==> forall x :: x in items ==> x.key != key
  {
    if items == [] then None
    else if items[|items| - 1].key == key then Some(items[|items| - 1])
    else
      assert items == items[..|items| - 1] + [items[|items| - 1]];
      Lookup(items[..|items| - 1], key)
  }

  function Drop(items: Items, key: Key): (r: Items)
    ensures forall x :: x in r <==> x in items && x.key != key
    ensures |r| <= |items|
  {
    if items == [] then []
    else
      var last := items[|items| - 1];
      var front := Drop(items[..|items| - 1], key);
      assert items == items[..|items| - 1] + [last];
      if last.key == key then front else front + [last]
  }

  /** The newest entries that fit. */
  function Trimmed(items: Items, capacity: nat): Items {
    if |items| <= capacity then items else items[|items| - capacity..]
  }

  function AfterPut(items: Items, now: int, item: Item, capacity: nat): Items {
    Trimmed(Alive(items, now) + [item], capacity)
  }

  // ----- what every sequence of calls keeps -----

  /** One entry for a key, in order of expiry, and nothing that was put after `now`. */
  ghost predicate Tidy(c: Config, items: Items, now: int) {
    && (forall i, j :: 0 <= i < j < |items| ==> items[i].key != items[j].key)
    && (forall i, j :: 0 <= i < j < |items| ==> items[i].expires <= items[j].expires)
    && (forall i :: 0 <= i < |items| ==> items[i].expires <= now + c.ttl)
  }

  ghost predicate Sound(c: Config, items: Items, now: int) {
    |items| <= c.capacity && Tidy(c, items, now)
  }

  ghost predicate ByExpiry(items: Items) {
    forall i, j :: 0 <= i < j < |items| ==> items[i].expires <= items[j].expires
  }

  lemma {:induction false} NoneAlive(items: Items, now: int)
    requires ByExpiry(items) && (items != [] ==> items[|items| - 1].expires <= now)
    ensures Alive(items, now) == []
  {
    var n := |items| - 1;
    if n >= 0 {
      assert n > 0 ==> items[..n][n - 1] == items[n - 1];
      NoneAlive(items[..n], now);
    }
  }

  /** Expiry removes a prefix. */
  lemma {:induction false} AliveIsSuffix(items: Items, now: int) returns (k: nat)
    requires ByExpiry(items)
    ensures k <= |items| && Alive(items, now) == items[k..]
  {
    var n := |items| - 1;
    if n < 0 || items[n].expires <= now {
      NoneAlive(items, now);
      k := |items|;
    } else {
      k := AliveIsSuffix(items[..n], now);
      assert items[k..] == items[..n][k..] + [items[n]];
    }
  }

  lemma SuffixTidy(c: Config, items: Items, now: int, later: int, k: nat)
    requires Tidy(c, items, now) && now <= later && k <= |items|
    ensures Tidy(c, items[k..], later)
  {
  }

  lemma AliveSound(c: Config, items: Items, now: int, later: int)
    requires Sound(c, items, now) && now <= later
    ensures Sound(c, Alive(items, later), later)
  {
    assert ByExpiry(items);
    var k := AliveIsSuffix(items, later);
    SuffixTidy(c, items, now, later, k);
  }

  /** Eviction: a put drops at most one entry that had not expired, namely the one that
      would have expired first, and only when the store is full of others. */
  lemma PutEvictsFirst(c: Config, items: Items, now: int, item: Item)
    requires ValidConfig(c) && Sound(c, items, now)
    ensures var alive, after := Alive(items, now), AfterPut(items, now, item, c.capacity);
      && (after == alive + [item] || (|alive| == c.capacity && after == alive[1..] + [item]))
      && (forall x :: x in alive && x !in after ==> forall y :: y in alive ==> x.expires <= y.expires)
  {
    AliveSound(c, items, now, now);
    FullEvictsFirst(c, Alive(items, now), now, item);
  }

  lemma FullEvictsFirst(c: Config, alive: Items, now: int, item: Item)
    requires ValidConfig(c) && Sound(c, alive, now)
    ensures var after := Trimmed(alive + [item], c.capacity);
      && (after == alive + [item] || (|alive| == c.capacity && after == alive[1..] + [item]))
      && (forall x :: x in alive && x !in after ==> forall y :: y in alive ==> x.expires <= y.expires)
  {
    var after := Trimmed(alive + [item], c.capacity);
    if |alive| == c.capacity {
      assert (alive + [item])[1..] == alive[1..] + [item];
      assert forall i :: 0 < i < |alive| ==> after[i - 1] == alive[i];
      assert forall x :: x in alive && x !in after ==> x == alive[0];
    }
  }

  lemma AppendTidy(c: Config, alive: Items, now: int, item: Item)
    requires Tidy(c, alive, now) && item.expires == now + c.ttl && forall x :: x in alive ==> x.key != item.key
    ensures Tidy(c, alive + [item], now)
  {
  }

  lemma PutKeepsSound(c: Config, items: Items, before: int, now: int, item: Item)
    requires ValidConfig(c) && Sound(c, items, before) && before <= now
    requires item.expires == now + c.ttl && Lookup(Alive(items, now), item.key).None?
    ensures Sound(c, AfterPut(items, now, item, c.capacity), now)
    ensures var after := AfterPut(items, now, item, c.capacity); after != [] && after[|after| - 1] == item
  {
    hide Tidy, Alive, Lookup;
    AliveSound(c, items, before, now);
    AppendTidy(c, Alive(items, now), now, item);
    var full := Alive(items, now) + [item];
    SuffixTidy(c, full, now, now, |full| - |Trimmed(full, c.capacity)|);
    SuffixTidy(c, full, now, now, 0);
  }

  lemma {:induction false} DropKeepsOrder(items: Items, key: Key, i: nat, j: nat)
    requires i < j < |Drop(items, key)|
    requires forall a, b :: 0 <= a < b < |items| ==> items[a].expires <= items[b].expires && items[a].key != items[b].key
    ensures Drop(items, key)[i].expires <= Drop(items, key)[j].expires && Drop(items, key)[i].key != Drop(items, key)[j].key
  {
    var front := items[..|items| - 1];
    if j < |Drop(front, key)| {
      DropKeepsOrder(front, key, i, j);
    } else {
      assert Drop(front, key)[i] in front;
    }
  }

  lemma DropKeepsSound(c: Config, items: Items, now: int, key: Key)
    requires Sound(c, items, now)
    ensures Sound(c, Drop(items, key), now)
  {
    var r := Drop(items, key);
    forall i, j | 0 <= i < j < |r| ensures r[i].key != r[j].key && r[i].expires <= r[j].expires {
      DropKeepsOrder(items, key, i, j);
    }
    forall i | 0 <= i < |r| ensures r[i].expires <= now + c.ttl {
      assert r[i] in items;
    }
  }

  // ----- runs -----

  datatype Op = Put(now: int, item: Item) | Get(now: int, key: Key) | Delete(now: int, key: Key) | Cleanup(now: int)
    | Clear(now: int)

  function Apply(c: Config, items: Items, op: Op): Items {
    match op
    case Put(now, item) => AfterPut(items, now, item, c.capacity)
    case Get(now, _) => Alive(items, now)
    case Delete(now, key) => Drop(Alive(items, now), key)
    case Cleanup(now) => Alive(items, now)
    case Clear(_) => []
  }

  /** Clocks do not run backwards, and a put uses a key that is not in the store. */
  ghost predicate IsRun(c: Config, items: Items, now: int, ops: seq<Op>)
    decreases |ops|
  {
    ops != [] ==>
      && now <= ops[0].now
      && (ops[0].Put? ==> ops[0].item.expires == ops[0].now + c.ttl && Lookup(Alive(items, ops[0].now), ops[0].item.key).None?)
      && IsRun(c, Apply(c, items, ops[0]), ops[0].now, ops[1..])
  }

  function After(c: Config, items: Items, ops: seq<Op>): Items
    decreases |ops|
  {
    if ops == [] then items else After(c, Apply(c, items, ops[0]), ops[1..])
  }

  lemma ApplyKeepsSound(c: Config, items: Items, now: int, op: Op)
    requires ValidConfig(c) && Sound(c, items, now) && IsRun(c, items, now, [op])
    ensures Sound(c, Apply(c, items, op), op.now)
  {
    AliveSound(c, items, now, op.now);
    match op
    case Put(_, item) => PutKeepsSound(c, items, now, op.now, item);
    case Delete(_, key) => DropKeepsSound(c, Alive(items, op.now), op.now, key);
    case Get(_, _) =>
    case Cleanup(_) =>
    case Clear(_) =>
  }

  function Puts(ops: seq<Op>): nat {
    if ops == [] then 0 else (if ops[0].Put? then 1 else 0) + Puts(ops[1..])
  }

  /** How many entries are newer than the one at `i`. */
  ghost predicate Holds(items: Items, item: Item, newer: nat) {
    exists i :: 0 <= i < |items| && items[i] == item && |items| - 1 - i <= newer
  }

  lemma AliveHolds(items: Items, now: int, item: Item, newer: nat)
    requires ByExpiry(items) && Holds(items, item, newer) && now < item.expires
    ensures Holds(Alive(items, now), item, newer)
  {
    hide ByExpiry;
    var k := AliveIsSuffix(items, now);
    var i :| 0 <= i < |items| && items[i] == item && |items| - 1 - i <= newer;
    assert item in Alive(items, now);
    if i >= k {
      assert items[k..][i - k] == item;
    }
  }

  lemma {:induction false} DropHolds(items: Items, key: Key, item: Item, newer: nat)
    requires Holds(items, item, newer) && item.key != key
    ensures Holds(Drop(items, key), item, newer)
  {
    var n := |items| - 1;
    var i :| 0 <= i < |items| && items[i] == item && n - i <= newer;
    var front, rest := items[..n], Drop(items[..n], key);
    if i == n {
      assert Drop(items, key)[|rest|] == item;
    } else {
      assert front[i] == item && Holds(front, item, newer - 1);
      DropHolds(front, key, item, newer - 1);
      var j :| 0 <= j < |rest| && rest[j] == item && |rest| - 1 - j <= newer - 1;
      assert Drop(items, key)[j] == item;
    }
  }

  lemma MoreHolds(items: Items, other: Item, item: Item, newer: nat)
    requires Holds(items, item, newer)
    ensures Holds(items + [other], item, newer + 1)
  {
    var i :| 0 <= i < |items| && items[i] == item && |items| - 1 - i <= newer;
    assert (items + [other])[i] == item;
  }

  lemma TrimmedHolds(items: Items, capacity: nat, item: Item, newer: nat)
    requires Holds(items, item, newer) && newer < capacity
    ensures Holds(Trimmed(items, capacity), item, newer)
  {
    var i :| 0 <= i < |items| && items[i] == item && |items| - 1 - i <= newer;
    var kept := Trimmed(items, capacity);
    assert kept[i - (|items| - |kept|)] == item;
  }

  lemma PutHolds(c: Config, items: Items, now: int, item: Item, other: Item, newer: nat)
    requires ByExpiry(items) && Holds(items, item, newer) && now < item.expires && newer + 1 < c.capacity
    ensures Holds(AfterPut(items, now, other, c.capacity), item, newer + 1)
  {
    hide Alive, Trimmed, Holds, ByExpiry;
    AliveHolds(items, now, item, newer);
    MoreHolds(Alive(items, now), other, item, newer);
    TrimmedHolds(Alive(items, now) + [other], c.capacity, item, newer + 1);
  }

  /** The operation comes before the entry expires and does not take it out. */
  predicate Spares(op: Op, item: Item) {
    op.now < item.expires && op != Delete(op.now, item.key) && !op.Clear?
  }

  /** Retention: an entry that is not taken out and has not expired is found, with its
      payload, until as many newer entries were put as the store has room for. */
  lemma {:induction false} Retained(c: Config, items: Items, now: int, ops: seq<Op>, item: Item, newer: nat)
    requires ValidConfig(c) && Sound(c, items, now) && IsRun(c, items, now, ops)
    requires Holds(items, item, newer) && newer + Puts(ops) < c.capacity
    requires forall op :: op in ops ==> Spares(op, item)
    ensures Lookup(After(c, items, ops), item.key) == Some(item)
    decreases |ops|
  {
    if ops == [] {
      var i :| 0 <= i < |items| && items[i] == item;
      var found := Lookup(items, item.key).value;
      var j :| 0 <= j < |items| && items[j] == found;
    } else {
      var op, rest := ops[0], ops[1..];
      assert op in ops && Spares(op, item) && ops == [op] + rest;
      ApplyKeepsSound(c, items, now, op);
      assert ByExpiry(items);
      AliveHolds(items, op.now, item, newer);
      match op {
        case Put(at, other) =>
          PutHolds(c, items, at, item, other, newer);
          Retained(c, Apply(c, items, op), op.now, rest, item, newer + 1);
        case Delete(at, key) =>
          DropHolds(Alive(items, at), key, item, newer);
          Retained(c, Apply(c, items, op), op.now, rest, item, newer);
        case Get(_, _) =>
          Retained(c, Apply(c, items, op), op.now, rest, item, newer);
        case Cleanup(_) =>
          Retained(c, Apply(c, items, op), op.now, rest, item, newer);
      }
    }
  }

  /** Right after a put the entry is there, and nothing newer. */
  lemma PutIsHeld(c: Config, items: Items, before: int, now: int, item: Item)
    requires ValidConfig(c) && Sound(c, items, before) && before <= now
    requires item.expires == now + c.ttl && Lookup(Alive(items, now), item.key).None?
    ensures Holds(AfterPut(items, now, item, c.capacity), item, 0)
  {
    PutKeepsSound(c, items, before, now, item);
  }

  /** Put, then get: whatever else happens in between, a payload that was put is found
      with its key, unless it was deleted, cleared, expired, or pushed out by as many newer puts
      as the store has room for. */
  lemma PutThenGet(c: Config, items: Items, before: int, put: Op, rest: seq<Op>)
    requires ValidConfig(c) && Sound(c, items, before) && put.Put? && IsRun(c, items, before, [put] + rest)
    requires Puts(rest) < c.capacity
    requires forall op :: op in rest ==> Spares(op, put.item)
    ensures Lookup(After(c, items, [put] + rest), put.item.key) == Some(put.item)
  {
    hide Alive, AfterPut, Lookup, Sound, Holds, ValidConfig, Spares;
    var after := Apply(c, items, put);
    assert ([put] + rest)[1..] == rest;
    PutIsHeld(c, items, before, put.now, put.item);
    ApplyKeepsSound(c, items, before, put);
    Retained(c, after, put.now, rest, put.item, 0);
  }

  /** Nothing else is ever found: every entry was in the store before or was put. */
  lemma {:induction false} OnlyWhatWasPut(c: Config, items: Items, ops: seq<Op>, x: Item)
    requires x in After(c, items, ops)
    ensures x in items || exists op :: op in ops && op.Put? && op.item == x
    decreases |ops|
  {
    hide Apply, Alive;
    if ops != [] {
      OnlyWhatWasPut(c, Apply(c, items, ops[0]), ops[1..], x);
      if x in Apply(c, items, ops[0]) {
        ApplyOnlyAdds(c, items, ops[0], x);
      } else {
        var op :| op in ops[1..] && op.Put? && op.item == x;
        assert op in ops;
      }
    }
  }

  lemma ApplyOnlyAdds(c: Config, items: Items, op: Op, x: Item)
    requires x in Apply(c, items, op)
    ensures x in items || (op.Put? && op.item == x)
  {
    if op.Put? {
      var full := Alive(items, op.now) + [op.item];
      assert x in full;
    }
  }

  /** A payload found after a run of a new store is one that was put under the same state
      key and handle during the run. */
  lemma FoundWasPut(c: Config, ops: seq<Op>, key: Key)
    ensures Lookup(After(c, [], ops), key).Some? ==>
      exists op :: op in ops && op.Put? && op.item.key == key && Lookup(After(c, [], ops), key) == Some(op.item)
  {
    var found := Lookup(After(c, [], ops), key);
    if found.Some? {
      OnlyWhatWasPut(c, [], ops, found.value);
      var op :| op in ops && op.Put? && op.item == found.value;
      assert op.item.key == key;
    }
  }

  function LastTime(now: int, ops: seq<Op>): int {
    if ops == [] then now else ops[|ops| - 1].now
  }

  /** Every run keeps capacity, order and unique keys. */
  lemma {:induction false} RunKeepsSound(c: Config, items: Items, now: int, ops: seq<Op>)
    requires ValidConfig(c) && Sound(c, items, now) && IsRun(c, items, now, ops)
    ensures Sound(c, After(c, items, ops), LastTime(now, ops))
    decreases |ops|
  {
    if ops != [] {
      ApplyKeepsSound(c, items, now, ops[0]);
      RunKeepsSound(c, Apply(c, items, ops[0]), ops[0].now, ops[1..]);
    }
  }

  // ----- the store -----

  class ScopedContextPayloadStore {
    const config: Config
    var payloads: Items
    ghost var latest: int              // the last time the clock was read

    constructor (conversationTtl: nat, auditTtl: nat, capacity: nat)
      requires conversationTtl > 0 && auditTtl > 0 && capacity > 0
      ensures Valid() && payloads == [] && config.capacity == capacity
      ensures config.ttl == if conversationTtl <= auditTtl then conversationTtl else auditTtl
    {
      config := Config(if conversationTtl <= auditTtl then conversationTtl else auditTtl, capacity);
      payloads, latest := [], 0;
    }

    ghost predicate Valid()
      reads this
    {
      ValidConfig(config) && Sound(config, payloads, latest)
    }

    /** Collect the expired keys, then delete them. */
    method RemoveExpired(now: int) returns (count: nat)
      requires Valid() && latest <= now
      modifies this
      ensures Valid() && latest == now && payloads == Alive(old(payloads), now)
      ensures count == |old(payloads)| - |payloads|
    {
      var kept: Items := [];
      for i := 0 to |payloads|
        invariant payloads == old(payloads) && latest == old(latest)
        invariant kept == Alive(payloads[..i], now)
      {
        assert payloads[..i + 1][..i] == payloads[..i];
        if payloads[i].expires > now {
          kept := kept + [payloads[i]];
        }
      }
      assert payloads[..|payloads|] == payloads;
      AliveSound(config, payloads, latest, now);
      count := |payloads| - |kept|;
      payloads := kept;
      latest := now;
    }

    /** Store a payload under a fresh handle; `draws` are the handles the generator
        gives, one of which is not in use. */
    method Put(stateKey: string, payload: string, now: int, draws: seq<string>) returns (handle: string)
      requires Valid() && latest <= now
      requires exists i :: 0 <= i < |draws| && Lookup(Alive(payloads, now), Key(stateKey, draws[i])).None?
      modifies this
      ensures Valid() && latest == now
      ensures handle in draws && Lookup(Alive(old(payloads), now), Key(stateKey, handle)).None?
      ensures payloads == AfterPut(old(payloads), now, Item(Key(stateKey, handle), payload, now + config.ttl), config.capacity)
    {
      hide Sound, Alive;
      AliveTwice(payloads, now);
      var _ := RemoveExpired(now);
      var d := 0;
      while Lookup(payloads, Key(stateKey, draws[d])).Some?
        invariant 0 <= d < |draws|
        invariant exists i :: d <= i < |draws| && Lookup(payloads, Key(stateKey, draws[i])).None?
        decreases |draws| - d
      {
        d := d + 1;
      }
      handle := draws[d];
      PutKeepsSound(config, payloads, now, now, Item(Key(stateKey, handle), payload, now + config.ttl));
      Insert(Item(Key(stateKey, handle), payload, now + config.ttl));
    }

    /** Insert an entry, then trim to capacity. */
    method Insert(item: Item)
      requires config.capacity > 0
      modifies this`payloads
      ensures payloads == Trimmed(old(payloads) + [item], config.capacity)
    {
      payloads := payloads + [item];
      ghost var full := payloads;
      while |payloads| > config.capacity
        invariant |payloads| <= |full| && payloads == full[|full| - |payloads|..]
        invariant |payloads| >= config.capacity || payloads == full
        decreases |payloads|
      {
        payloads := payloads[1..];
      }
    }

    method Get(stateKey: string, handle: string, now: int) returns (r: Option<string>)
      requires Valid() && latest <= now
      modifies this
      ensures Valid() && latest == now && payloads == Alive(old(payloads), now)
      ensures r == match Lookup(Alive(old(payloads), now), Key(stateKey, handle))
                   case Some(item) => Some(item.payload)
                   case None => None
    {
      var _ := RemoveExpired(now);
      var found := Lookup(payloads, Key(stateKey, handle));
      r := if found.Some? then Some(found.value.payload) else None;
    }

    method Delete(stateKey: string, handle: string, now: int) returns (found: bool)
      requires Valid() && latest <= now
      modifies this
      ensures Valid() && latest == now && payloads == Drop(Alive(old(payloads), now), Key(stateKey, handle))
      ensures found <==> Lookup(Alive(old(payloads), now), Key(stateKey, handle)).Some?
    {
      var _ := RemoveExpired(now);
      found := Lookup(payloads, Key(stateKey, handle)).Some?;
      DropKeepsSound(config, payloads, now, Key(stateKey, handle));
      payloads := Drop(payloads, Key(stateKey, handle));
    }

    /** Take everything out, without reading the clock. */
    method Clear()
      requires Valid()
      modifies this
      ensures Valid() && payloads == Apply(config, old(payloads), Op.Clear(latest)) && latest == old(latest)
    {
      payloads := [];
    }
  }

  lemma {:induction false} AliveTwice(items: Items, now: int)
    ensures Alive(Alive(items, now), now) == Alive(items, now)
  {
    if items != [] {
      var n := |items| - 1;
      AliveTwice(items[..n], now);
      var front := Alive(items[..n], now);
      if items[n].expires > now {
        assert (front + [items[n]])[..|front|] == front;
      }
    }
  }
}
