/** Round-robin over API keys, skipping the ones that are cooling down. */
module KeyRotator {
  import opened Common

  /** The key index the search settles on, and the cursor it leaves behind. */
  datatype Pick = Pick(index: Option<nat>, cursor: nat)

  function Next(cursor: nat, n: nat): nat
    requires cursor < n
  {
    if cursor + 1 == n then 0 else cursor + 1
  }

  lemma NextIsModulo(cursor: nat, n: nat)
    requires cursor < n
    ensures Next(cursor, n) == (cursor + 1) % n
  {
    if cursor + 1 < n {
      assert (cursor + 1) % n == cursor + 1;
    }
  }

  /** At most steps probes from the cursor; None when every probed key is cooling. */
  function Search(n: nat, cooling: set<nat>, cursor: nat, steps: nat): (p: Pick)
    requires cursor < n
    ensures p.cursor < n
    ensures p.index.Some? ==> p.index.value < n && p.index.value !in cooling && p.cursor == Next(p.index.value, n)
    decreases steps
  {
    if steps == 0 then Pick(None, cursor)
    else if cursor !in cooling then Pick(Some(cursor), Next(cursor, n))
    else Search(n, cooling, Next(cursor, n), steps - 1)
  }

  /** The indices that count calls of get_key return under one fixed set of cooling keys. */
  function Calls(n: nat, cooling: set<nat>, cursor: nat, count: nat): seq<Option<nat>>
    requires cursor < n
    decreases count
  {
    if count == 0 then []
    else
      var p := Search(n, cooling, cursor, n);
      [p.index] + Calls(n, cooling, p.cursor, count - 1)
  }

  /** The free keys among the next steps positions, in cyclic order. */
  function FreeAhead(n: nat, cooling: set<nat>, cursor: nat, steps: nat): seq<nat>
    requires cursor < n
    decreases steps
  {
    if steps == 0 then []
    else (if cursor in cooling then [] else [cursor]) + FreeAhead(n, cooling, Next(cursor, n), steps - 1)
  }

  /** The free keys of an index range, ascending. */
  function FreeRange(cooling: set<nat>, lo: nat, hi: nat): seq<nat>
    requires lo <= hi
    decreases hi - lo
  {
    if lo == hi then []
    else (if lo in cooling then [] else [lo]) + FreeRange(cooling, lo + 1, hi)
  }

  lemma {:induction false} FreeRangeMeaning(cooling: set<nat>, lo: nat, hi: nat)
    requires lo <= hi
    ensures forall i: nat :: i in FreeRange(cooling, lo, hi) <==> lo <= i < hi && i !in cooling
    ensures forall a, b :: 0 <= a < b < |FreeRange(cooling, lo, hi)| ==>
              FreeRange(cooling, lo, hi)[a] < FreeRange(cooling, lo, hi)[b]
    decreases hi - lo
  {
    if lo < hi {
      FreeRangeMeaning(cooling, lo + 1, hi);
      var rest := FreeRange(cooling, lo + 1, hi);
      assert forall a :: 0 <= a < |rest| ==> rest[a] in rest;
    }
  }

  lemma {:induction false} FreeAheadStraight(n: nat, cooling: set<nat>, cursor: nat, steps: nat)
    requires cursor < n && cursor + steps <= n
    ensures FreeAhead(n, cooling, cursor, steps) == FreeRange(cooling, cursor, cursor + steps)
    decreases steps
  {
    if steps > 1 {
      FreeAheadStraight(n, cooling, cursor + 1, steps - 1);
    } else if steps == 1 {
      assert FreeAhead(n, cooling, Next(cursor, n), 0) == [];
    }
  }

  lemma {:induction false} FreeAheadWraps(n: nat, cooling: set<nat>, cursor: nat, steps: nat)
    requires cursor < n && n <= cursor + steps <= 2 * n
    ensures FreeAhead(n, cooling, cursor, steps)
         == FreeRange(cooling, cursor, n) + FreeAhead(n, cooling, 0, cursor + steps - n)
    decreases n - cursor
  {
    if cursor + 1 < n {
      FreeAheadWraps(n, cooling, cursor + 1, steps - 1);
    } else {
      assert FreeRange(cooling, n, n) == [];
    }
  }

  /** A full turn meets the free keys from the cursor up, then those below it. */
  lemma FullTurn(n: nat, cooling: set<nat>, cursor: nat)
    requires cursor < n
    ensures FreeAhead(n, cooling, cursor, n) == FreeRange(cooling, cursor, n) + FreeRange(cooling, 0, cursor)
  {
    FreeAheadWraps(n, cooling, cursor, n);
    FreeAheadStraight(n, cooling, 0, cursor);
  }

  /** A search that finds a key does not care how many more probes it was allowed. */
  lemma {:induction false} SearchWithin(n: nat, cooling: set<nat>, cursor: nat, steps: nat, more: nat)
    requires cursor < n && steps <= more && FreeAhead(n, cooling, cursor, steps) != []
    ensures Search(n, cooling, cursor, more) == Search(n, cooling, cursor, steps)
    decreases steps
  {
    if steps > 0 && cursor in cooling {
      SearchWithin(n, cooling, Next(cursor, n), steps - 1, more - 1);
    }
  }

  function Somes(s: seq<nat>): (r: seq<Option<nat>>)
    ensures |r| == |s| && forall i :: 0 <= i < |s| ==> r[i] == Some(s[i])
  {
    seq(|s|, i requires 0 <= i < |s| => Some(s[i]))
  }

  /** A first call that finds a key is followed by the calls from the next cursor. */
  lemma CallsStep(n: nat, cooling: set<nat>, cursor: nat, index: nat, rest: seq<nat>)
    requires cursor < n && index < n
    requires Search(n, cooling, cursor, n) == Pick(Some(index), Next(index, n))
    requires Calls(n, cooling, Next(index, n), |rest|) == Somes(rest)
    ensures Calls(n, cooling, cursor, 1 + |rest|) == Somes([index] + rest)
  {
    hide Search;
    assert Somes([index] + rest) == [Some(index)] + Somes(rest);
  }

  /** A cooling key under the cursor does not change what the calls return. */
  lemma CallsSkip(n: nat, cooling: set<nat>, cursor: nat, steps: nat, count: nat)
    requires cursor < n && 0 < steps <= n && cursor in cooling && count > 0
    requires FreeAhead(n, cooling, Next(cursor, n), steps - 1) != []
    ensures Calls(n, cooling, cursor, count) == Calls(n, cooling, Next(cursor, n), count)
  {
    SearchWithin(n, cooling, cursor, steps, n);
    SearchWithin(n, cooling, Next(cursor, n), steps - 1, n);
  }

  /** Consecutive calls return the free keys ahead, one by one and in order. */
  lemma {:induction false} CallsFollowTurn(n: nat, cooling: set<nat>, cursor: nat, steps: nat)
    requires cursor < n && steps <= n
    ensures Calls(n, cooling, cursor, |FreeAhead(n, cooling, cursor, steps)|)
         == Somes(FreeAhead(n, cooling, cursor, steps))
    decreases steps
  {
    hide Somes;
    var ahead := FreeAhead(n, cooling, cursor, steps);
    if steps > 0 {
      CallsFollowTurn(n, cooling, Next(cursor, n), steps - 1);
      var rest := FreeAhead(n, cooling, Next(cursor, n), steps - 1);
      if cursor !in cooling {
        CallsStep(n, cooling, cursor, cursor, rest);
      } else if rest != [] {
        assert ahead == rest;
        CallsSkip(n, cooling, cursor, steps, |rest|);
      }
    }
  }

  function FreeKeys(n: nat, cooling: set<nat>): set<nat> {
    set i: nat | i < n && i !in cooling
  }

  /** With a free keys, a consecutive calls return each free key exactly once and no cooling key. */
  lemma RotationIsFair(n: nat, cooling: set<nat>, cursor: nat)
    requires cursor < n
    ensures var calls := Calls(n, cooling, cursor, |FreeKeys(n, cooling)|);
            |calls| == |FreeKeys(n, cooling)| &&
            (forall i :: 0 <= i < |calls| ==> calls[i].Some? && calls[i].value in FreeKeys(n, cooling)) &&
            (forall k :: k in FreeKeys(n, cooling) ==> exists i :: 0 <= i < |calls| && calls[i] == Some(k)) &&
            (forall i, j :: 0 <= i < j < |calls| ==> calls[i] != calls[j])
  {
    var upper, lower := FreeRange(cooling, cursor, n), FreeRange(cooling, 0, cursor);
    var turn := upper + lower;
    FullTurn(n, cooling, cursor);
    FreeRangeMeaning(cooling, cursor, n);
    FreeRangeMeaning(cooling, 0, cursor);
    forall i, j | 0 <= i < j < |turn|
      ensures turn[i] != turn[j]
    {
      if i < |upper| <= j {
        assert upper[i] in upper && lower[j - |upper|] in lower;
      }
    }
    assert forall k: nat :: k in turn <==> k in FreeKeys(n, cooling);
    DistinctCount(turn, FreeKeys(n, cooling));
    CallsFollowTurn(n, cooling, cursor, n);
    var calls := Somes(turn);
    forall i | 0 <= i < |calls|
      ensures calls[i].value in FreeKeys(n, cooling)
    {
      assert turn[i] in turn;
    }
    forall k | k in FreeKeys(n, cooling)
      ensures exists i :: 0 <= i < |calls| && calls[i] == Some(k)
    {
      assert k in turn;
      var i :| 0 <= i < |turn| && turn[i] == k;
      assert calls[i] == Some(k);
    }
  }

  lemma {:induction false} DistinctCount(s: seq<nat>, all: set<nat>)
    requires forall i, j :: 0 <= i < j < |s| ==> s[i] != s[j]
    requires forall k: nat :: k in s <==> k in all
    ensures |s| == |all|
  {
    if s == [] {
      assert all == {};
    } else {
      assert s[0] in s;
      var rest := s[1..];
      forall k: nat
        ensures k in rest <==> k in all - {s[0]}
      {
        assert s == [s[0]] + rest;
        if k in rest {
          var i :| 0 <= i < |rest| && rest[i] == k;
          assert s[i + 1] == k;
        }
      }
      DistinctCount(rest, all - {s[0]});
    }
  }

  /** When every key is cooling, the search goes once round and the cursor ends where it began. */
  lemma {:induction false} AllCooling(n: nat, cooling: set<nat>, cursor: nat, steps: nat)
    requires cursor < n && steps <= n && forall i: nat :: i < n ==> i in cooling
    ensures Search(n, cooling, cursor, steps).index == None
    ensures Search(n, cooling, cursor, steps).cursor == if cursor + steps < n then cursor + steps else cursor + steps - n
    decreases steps
  {
    if steps > 0 {
      AllCooling(n, cooling, Next(cursor, n), steps - 1);
    }
  }

  /** A full search fails exactly when no key is free, and then the cursor is back where it began. */
  lemma SearchFinds(n: nat, cooling: set<nat>, cursor: nat)
    requires cursor < n
    ensures Search(n, cooling, cursor, n) == Pick(None, cursor) <==> FreeKeys(n, cooling) == {}
    ensures Search(n, cooling, cursor, n).index.None? <==> FreeKeys(n, cooling) == {}
  {
    if FreeKeys(n, cooling) == {} {
      assert forall i: nat :: i < n ==> (i in cooling <==> i !in FreeKeys(n, cooling));
      AllCooling(n, cooling, cursor, n);
    } else {
      RotationIsFair(n, cooling, cursor);
      assert Calls(n, cooling, cursor, |FreeKeys(n, cooling)|)[0] == Search(n, cooling, cursor, n).index;
    }
  }

  // ---- the rotator ---------------------------------------------------------

  /** keys.index(key): the first position of the key. */
  function IndexOf(keys: seq<string>, key: string): (i: Option<nat>)
    ensures i.None? <==> key !in keys
    ensures i.Some? ==> i.value < |keys| && keys[i.value] == key && key !in keys[..i.value]
  {
    if keys == [] then None
    else if keys[0] == key then Some(0)
    else
      match IndexOf(keys[1..], key)
      case None => None
      case Some(j) =>
        assert keys[..j + 1] == [keys[0]] + keys[1..][..j];
        Some(j + 1)
  }

  /** Redis: the moment each cooldown flag expires. */
  type Cooldowns = map<nat, int>

  function CoolingAt(n: nat, cooldowns: Cooldowns, now: int): set<nat> {
    set i | i in cooldowns && i < n && now < cooldowns[i]
  }

  /** Redis refuses an expiry of zero or less, and that error is swallowed. */
  function Marked(keys: seq<string>, cooldowns: Cooldowns, key: string, retryAfter: int, now: int): Cooldowns {
    if key == "" || key !in keys || retryAfter <= 0 then cooldowns
    else cooldowns[IndexOf(keys, key).value := now + retryAfter]
  }

  /** The probed index and the cursor behind it. */
  method Advance(index: nat, n: nat) returns (idx: nat, next: nat)
    requires index < n
    ensures idx == index && next == Next(index, n)
  {
    NextIsModulo(index, n);
    idx := index % n;
    next := (index + 1) % n;
  }

  class GroqKeyRotator {
    const keys: seq<string>
    var index: nat
    /** The flags in Redis, which all replicas share. */
    var cooldowns: Cooldowns

    constructor (loaded: seq<string>, shared: Cooldowns)
      ensures keys == loaded && index == 0 && cooldowns == shared
    {
      keys, index, cooldowns := loaded, 0, shared;
    }

    /** failed holds the keys whose flag cannot be read, all of them without Redis: they count as free. */
    method GetKey(now: int, failed: set<nat>) returns (key: Option<string>)
      requires keys != [] ==> index < |keys|
      modifies this`index
      ensures keys == [] ==> key == None && index == old(index)
      ensures keys != [] ==>
                var p := Search(|keys|, CoolingAt(|keys|, cooldowns, now) - failed, old(index), |keys|);
                index == p.cursor && key == Some(if p.index.Some? then keys[p.index.value] else keys[0])
    {
      if keys == [] {
        return None;
      }
      var n := |keys|;
      ghost var cooling := CoolingAt(n, cooldowns, now) - failed;
      var k := 0;
      while k < n
        invariant 0 <= k <= n && index < n
        invariant Search(n, cooling, index, n - k) == Search(n, cooling, old(index), n)
      {
        var idx, next := Advance(index, n);
        index := next;
        var flagged := idx !in failed && idx in cooldowns && now < cooldowns[idx];
        if !flagged {
          return Some(keys[idx]);
        }
        k := k + 1;
      }
      key := Some(keys[0]);
    }

    /** reachable: Redis takes the flag; otherwise nothing is marked. */
    method MarkRateLimited(key: string, retryAfter: int, now: int, reachable: bool)
      modifies this`cooldowns
      ensures cooldowns == if reachable then Marked(keys, old(cooldowns), key, retryAfter, now) else old(cooldowns)
    {
      if !reachable || key == "" {
        return;
      }
      var found := IndexOf(keys, key);
      if found.Some? && retryAfter > 0 {
        cooldowns := cooldowns[found.value := now + retryAfter];
      }
    }
  }

  /** A mark makes its key cool until the given time has passed, at its first listing; every other flag stays. */
  lemma MarkMeaning(keys: seq<string>, cooldowns: Cooldowns, key: string, retryAfter: int, marked: int, now: int, j: nat)
    requires j < |keys|
    ensures j in CoolingAt(|keys|, Marked(keys, cooldowns, key, retryAfter, marked), now) <==>
            if retryAfter > 0 && key != "" && keys[j] == key && key !in keys[..j] then now < marked + retryAfter
            else j in cooldowns && now < cooldowns[j]
  {
    if key in keys {
      var i := IndexOf(keys, key).value;
      assert i < j ==> keys[..j][i] == key;
      assert j < i ==> keys[..i][j] == keys[j];
    } else {
      assert keys[j] in keys;
    }
  }

  /** A key marked at its only listing is picked again, under the cursor, exactly from the end of its cooldown on. */
  lemma MarkedKeyReturns(keys: seq<string>, cooldowns: Cooldowns, key: string, retryAfter: int, marked: int, now: int, j: nat)
    requires j < |keys| && keys[j] == key && key !in keys[..j] && key !in keys[j + 1..] && key != "" && retryAfter > 0
    ensures Picks(keys, CoolingAt(|keys|, Marked(keys, cooldowns, key, retryAfter, marked), now), j, key) <==>
            now >= marked + retryAfter
  {
    MarkMeaning(keys, cooldowns, key, retryAfter, marked, now, j);
    var p := Search(|keys|, CoolingAt(|keys|, Marked(keys, cooldowns, key, retryAfter, marked), now), j, |keys|);
    if p.index.Some? && p.index.value != j {
      var i := p.index.value;
      assert if i < j then keys[i] in keys[..j] else keys[j + 1..][i - j - 1] == keys[i];
    }
  }

  predicate Picks(keys: seq<string>, cooling: set<nat>, cursor: nat, key: string)
    requires cursor < |keys|
  {
    var p := Search(|keys|, cooling, cursor, |keys|);
    p.index.Some? && keys[p.index.value] == key
  }

  /**
    From no cursor is a marked key picked before its cooldown ends, exactly when
    every later listing of the same key is cooling on its own account: only the
    first listing gets the mark.
  */
  lemma MarkedKeyRests(keys: seq<string>, cooldowns: Cooldowns, key: string, retryAfter: int, marked: int, now: int)
    requires key != "" && key in keys && marked <= now < marked + retryAfter
    ensures var cooling := CoolingAt(|keys|, Marked(keys, cooldowns, key, retryAfter, marked), now);
            (forall cursor: nat :: cursor < |keys| ==> !Picks(keys, cooling, cursor, key)) <==>
            (forall i: nat :: IndexOf(keys, key).value < i < |keys| && keys[i] == key ==> i in CoolingAt(|keys|, cooldowns, now))
  {
    var first := IndexOf(keys, key).value;
    var before := CoolingAt(|keys|, cooldowns, now);
    var cooling := CoolingAt(|keys|, Marked(keys, cooldowns, key, retryAfter, marked), now);
    assert forall i :: i in cooling <==> i == first || i in before;
    forall i: nat | i < first
      ensures keys[i] != key
    {
      assert keys[..first][i] == keys[i];
    }
    forall i: nat | first < i < |keys| && keys[i] == key && i !in before
      ensures Picks(keys, cooling, i, key)
    {
      assert Search(|keys|, cooling, i, |keys|).index == Some(i);
    }
    forall cursor: nat | cursor < |keys| && Picks(keys, cooling, cursor, key)
      ensures exists i: nat :: first < i < |keys| && keys[i] == key && i !in before
    {
      var i := Search(|keys|, cooling, cursor, |keys|).index.value;
      assert i > first && i !in before;
    }
  }
}
