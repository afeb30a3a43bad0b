/** The registry shared by the listener and its worker: a map from native id
    to the registered hotkey and its callback, and what its values add up to. */
module Registry {
  import opened HotkeyTypes

  /** A callback closure, abstracted to its identity. */
  datatype Handler = Handler(tag: nat)

  datatype Entry = Entry(hotkey: ListenerHotkey, handler: Handler)

  type ListenerMap = map<ListenerId, Entry>

  /** Some entry of `m` holds hotkey `h` (the comparison is by value). */
  predicate Holds(m: ListenerMap, h: ListenerHotkey) {
    exists id | id in m :: m[id].hotkey == h
  }

  /** At most one entry per hotkey value. */
  ghost predicate UniqueHotkeys(m: ListenerMap) {
    forall a, b | a in m && b in m :: m[a].hotkey == m[b].hotkey ==> a == b
  }

  lemma CardRemove(m: ListenerMap, id: ListenerId)
    requires id in m
    ensures |m - {id}| == |m| - 1
  {
  }

  ghost function Pick(m: ListenerMap): (id: ListenerId)
    requires m != map[]
    ensures id in m
  {
    assert m.Keys != {};
    var id :| id in m; id
  }

  /** The hotkeys of the entries of `m`, one per entry. */
  ghost function HotkeyBag(m: ListenerMap): multiset<ListenerHotkey>
    decreases |m|
  {
    if m == map[] then multiset{}
    else
      var id := Pick(m);
      CardRemove(m, id);
      HotkeyBag(m - {id}) + multiset{m[id].hotkey}
  }

  /** Taking out any one entry takes its hotkey out of the bag, whichever
      entry the definition happens to visit first. */
  lemma {:induction false} BagRemove(m: ListenerMap, id: ListenerId)
    requires id in m
    ensures HotkeyBag(m) == HotkeyBag(m - {id}) + multiset{m[id].hotkey}
    decreases |m|
  {
    var x := Pick(m);
    if x != id {
      var withoutX, withoutId := m - {x}, m - {id};
      var withoutBoth := withoutX - {id};
      assert withoutBoth == withoutId - {x};
      CardRemove(m, x);
      CardRemove(m, id);
      BagRemove(withoutX, id);
      BagRemove(withoutId, x);
      var a, b := multiset{m[x].hotkey}, multiset{m[id].hotkey};
      calc {
        HotkeyBag(m);
        HotkeyBag(withoutX) + a;
        HotkeyBag(withoutBoth) + b + a;
        HotkeyBag(withoutBoth) + a + b;
        HotkeyBag(withoutId) + b;
      }
    }
  }

  lemma {:induction false} BagInsert(m: ListenerMap, id: ListenerId, e: Entry)
    ensures HotkeyBag(m[id := e]) == HotkeyBag(m - {id}) + multiset{e.hotkey}
  {
    calc {
      HotkeyBag(m[id := e]);
    == { BagRemove(m[id := e], id); }
      HotkeyBag(m[id := e] - {id}) + multiset{e.hotkey};
    == { assert m[id := e] - {id} == m - {id}; }
      HotkeyBag(m - {id}) + multiset{e.hotkey};
    }
  }

  /** The bag has exactly one element per entry. */
  lemma {:induction false} BagSize(m: ListenerMap)
    ensures |HotkeyBag(m)| == |m|
    decreases |m|
  {
    if m != map[] {
      var id := Pick(m);
      CardRemove(m, id);
      BagSize(m - {id});
    }
  }

  /** A hotkey is in the bag exactly when some entry holds it. */
  lemma {:induction false} BagHolds(m: ListenerMap, h: ListenerHotkey)
    ensures h in HotkeyBag(m) <==> Holds(m, h)
    decreases |m|
  {
    if m != map[] {
      var id := Pick(m);
      CardRemove(m, id);
      BagHolds(m - {id}, h);
      if Holds(m, h) && m[id].hotkey != h {
        var k :| k in m && m[k].hotkey == h;
        assert k in m - {id};
      }
    }
  }

  /** Where no two entries hold equal hotkeys, no hotkey is in the bag twice. */
  lemma {:induction false} BagUnique(m: ListenerMap, h: ListenerHotkey)
    requires UniqueHotkeys(m)
    ensures HotkeyBag(m)[h] <= 1
    decreases |m|
  {
    if m != map[] {
      var id := Pick(m);
      CardRemove(m, id);
      var rest := m - {id};
      BagUnique(rest, h);
      if m[id].hotkey == h {
        BagHolds(rest, h);
      }
    }
  }

  /** Two equal elements at distinct positions count twice. */
  lemma RepeatedTwice(s: seq<ListenerHotkey>, i: nat, j: nat)
    requires i < j < |s| && s[i] == s[j]
    ensures multiset(s)[s[i]] >= 2
  {
    assert s == s[..j] + s[j..];
    assert s[i] in s[..j];
    assert s[j] in s[j..];
  }

  /** A sequence holding the bag of `m` has one element per entry, holds
      exactly the hotkeys of the entries, and, when no two entries hold equal
      hotkeys, holds none twice. */
  lemma ListingOfBag(m: ListenerMap, s: seq<ListenerHotkey>)
    requires multiset(s) == HotkeyBag(m)
    ensures |s| == |m|
    ensures forall h :: h in s <==> Holds(m, h)
    ensures UniqueHotkeys(m) ==> forall i, j | 0 <= i < j < |s| :: s[i] != s[j]
  {
    BagSize(m);
    forall h ensures h in s <==> Holds(m, h) {
      BagHolds(m, h);
    }
    if UniqueHotkeys(m) {
      forall i, j | 0 <= i < j < |s| ensures s[i] != s[j] {
        if s[i] == s[j] {
          RepeatedTwice(s, i, j);
          BagUnique(m, s[i]);
        }
      }
    }
  }
}
