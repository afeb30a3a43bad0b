/** What `register_hotkey`, `unregister_hotkey` and the worker promise, alone
    and in sequence. */
module ListenerProperties {
  import opened HotkeyTypes
  import opened Registry
  import opened Worker
  import opened LinuxListener

  /** A hotkey some entry already holds is refused before anything is sent. */
  lemma RegisterDuplicate(m: ListenerMap, h: ListenerHotkey, handler: Handler, exchange: Exchange)
    requires Holds(m, h)
    ensures RegisterStep(m, h, handler, exchange) == Step(m, [], Err(HotkeyAlreadyRegistered(h)))
  {
  }

  /** A granted id gets the new entry, and the hotkey is then listed. */
  lemma {:induction false} RegisterGranted(m: ListenerMap, h: ListenerHotkey, handler: Handler, id: ListenerId)
    requires !Holds(m, h)
    ensures var s := RegisterStep(m, h, handler, Reply(RegisterHotkeyResult(Ok(id))));
      && s.result == Ok(())
      && s.sent == [RegisterRequest(h)]
      && s.handlers == m[id := Entry(h, handler)]
      && HotkeyBag(s.handlers) == HotkeyBag(m - {id}) + multiset{h}
      && h in HotkeyBag(s.handlers)
  {
    BagInsert(m, id, Entry(h, handler));
  }

  /** A refused grab, a failed send or receive, and a reply of the wrong kind
      all leave the map as it was. */
  lemma RegisterRefused(m: ListenerMap, h: ListenerHotkey, handler: Handler, exchange: Exchange)
    requires !Holds(m, h)
    requires !(exchange.Reply? && exchange.message.RegisterHotkeyResult? && exchange.message.registered.Ok?)
    ensures var s := RegisterStep(m, h, handler, exchange);
      && s.handlers == m
      && (exchange.SendFailed? ==> s.sent == [] && s.result == Err(ChannelError))
      && (exchange.RecvFailed? ==> s.sent == [RegisterRequest(h)] && s.result == Err(ChannelError))
      && (exchange.Reply? && exchange.message.RegisterHotkeyResult? ==>
            s.result == Err(exchange.message.registered.error))
      && (exchange.Reply? && !exchange.message.RegisterHotkeyResult? ==> s.result == Err(Unknown))
  {
  }

  /** A hotkey no entry holds is reported as not registered, and nothing is sent. */
  lemma UnregisterAbsent(m: ListenerMap, h: ListenerHotkey, exchange: Exchange)
    requires !Holds(m, h)
    ensures UnregisterStep(m, h, exchange) == Step(m, [], Err(HotkeyNotRegistered(h)))
  {
  }

  /** Once the release request is sent, exactly the entry holding the hotkey
      is gone, and every other entry is as it was. */
  lemma {:induction false} UnregisterPresent(m: ListenerMap, h: ListenerHotkey, id: ListenerId, exchange: Exchange)
    requires UniqueHotkeys(m) && id in m && m[id].hotkey == h && id != NotFound
    requires !exchange.SendFailed?
    ensures var s := UnregisterStep(m, h, exchange);
      && s.sent == [UnregisterRequest(id)]
      && s.handlers == m - {id}
      && !Holds(s.handlers, h)
      && (forall k | k in m && k != id :: k in s.handlers && s.handlers[k] == m[k])
      && HotkeyBag(s.handlers) == HotkeyBag(m) - multiset{h}
  {
    BagRemove(m, id);
  }

  /** What the release returns once the entry is found: a failed send returns
      before anything is removed; otherwise the removal stands and the answer
      only decides the result. */
  lemma UnregisterResponse(m: ListenerMap, h: ListenerHotkey, id: ListenerId, exchange: Exchange)
    requires UniqueHotkeys(m) && id in m && m[id].hotkey == h && id != NotFound
    ensures var s := UnregisterStep(m, h, exchange);
      && (exchange.SendFailed? ==> s == Step(m, [], Err(ChannelError)))
      && (exchange.RecvFailed? ==> s.handlers == m - {id} && s.result == Err(ChannelError))
      && (exchange.Reply? && exchange.message.UnregisterHotkeyResult? ==>
            s.handlers == m - {id} && s.result == exchange.message.unregistered)
      && (exchange.Reply? && !exchange.message.UnregisterHotkeyResult? ==>
            s.handlers == m - {id} && s.result == Err(Unknown))
  {
    if exchange.Reply? && exchange.message.UnregisterHotkeyResult? && exchange.message.unregistered.Ok? {
      // a unit value is `()`, so the success answer is `Ok(())`
      match exchange.message.unregistered.value { case () => }
    }
  }

  /** As written, an entry stored under the `NotFound` value itself cannot be
      released: the lookup's answer is read as "not found". */
  lemma SentinelEntryNotReleased(m: ListenerMap, h: ListenerHotkey, exchange: Exchange)
    requires UniqueHotkeys(m) && NotFound in m && m[NotFound].hotkey == h
    ensures UnregisterStep(m, h, exchange) == Step(m, [], Err(HotkeyNotRegistered(h)))
  {
  }

  /** Inserting under a native id that is already a key replaces that entry:
      its hotkey disappears from the listing and the count stays the same. */
  lemma {:induction false} GrantedIdReplaces(m: ListenerMap, h: ListenerHotkey, handler: Handler, id: ListenerId)
    requires UniqueHotkeys(m) && !Holds(m, h) && id in m
    ensures var s := RegisterStep(m, h, handler, Reply(RegisterHotkeyResult(Ok(id))));
      && s.result == Ok(())
      && !Holds(s.handlers, m[id].hotkey)
      && |HotkeyBag(s.handlers)| == |HotkeyBag(m)|
  {
    var replaced, m' := m[id].hotkey, m[id := Entry(h, handler)];
    forall k | k in m' ensures m'[k].hotkey != replaced {
      if k != id {
        assert m[k].hotkey == m'[k].hotkey;
      }
    }
    assert m'.Keys == m.Keys;
    BagSize(m);
    BagSize(m');
  }

  /** With the worker answering, a registration succeeds exactly when the grab
      does, under the keycode and the requested modifiers. */
  lemma WorkerRegister(m: ListenerMap, h: ListenerHotkey, handler: Handler, keycode: uint8, native: int32)
    requires !Holds(m, h)
    ensures var s := RegisterStep(m, h, handler, Serve(RegisterRequest(h), keycode, native));
      && (s.result == Ok(()) <==> native != 0)
      && (native != 0 ==> s.handlers == m[(keycode, h.modifiers) := Entry(h, handler)])
      && (native == 0 ==> s.handlers == m && s.result == Err(BackendApiError(0)))
      && (NotFound !in m ==> NotFound !in s.handlers)
  {
  }

  /** With the worker answering, a release of a registered hotkey always
      removes its entry and succeeds exactly when the ungrab does. */
  lemma WorkerUnregister(m: ListenerMap, h: ListenerHotkey, keycode: uint8, native: int32)
    requires UniqueHotkeys(m) && NotFound !in m && Holds(m, h)
    ensures var id := Lookup(m, h);
      var s := UnregisterStep(m, h, Serve(UnregisterRequest(id), keycode, native));
      && s.handlers == m - {id}
      && !Holds(s.handlers, h)
      && (s.result == Ok(()) <==> native != 0)
      && (native == 0 ==> s.result == Err(BackendApiError(0)))
  {
  }

  /** Releasing what was just registered under a fresh id gives back the old map. */
  lemma RegisterThenUnregister(m: ListenerMap, h: ListenerHotkey, handler: Handler,
                                                  keycode: uint8, grab: int32, ungrab: int32)
    requires UniqueHotkeys(m) && !Holds(m, h) && grab != 0 && (keycode, h.modifiers) !in m
    ensures var s1 := RegisterStep(m, h, handler, Serve(RegisterRequest(h), keycode, grab));
      var s2 := UnregisterStep(s1.handlers, h, Serve(UnregisterRequest(Lookup(s1.handlers, h)), keycode, ungrab));
      s1.result == Ok(()) && s2.handlers == m && HotkeyBag(s2.handlers) == HotkeyBag(m)
  {
  }

  /** Register, unregister, register of the same value: the second
      registration succeeds whatever the release answered. */
  lemma {:induction false} ReRegister(m: ListenerMap, h: ListenerHotkey, first: Handler, second: Handler,
                                      keycode: uint8, grab: int32, ungrab: int32, regrab: int32)
    requires UniqueHotkeys(m) && NotFound !in m && !Holds(m, h) && grab != 0 && regrab != 0
    ensures var s1 := RegisterStep(m, h, first, Serve(RegisterRequest(h), keycode, grab));
      var s2 := UnregisterStep(s1.handlers, h, Serve(UnregisterRequest(Lookup(s1.handlers, h)), keycode, ungrab));
      var s3 := RegisterStep(s2.handlers, h, second, Serve(RegisterRequest(h), keycode, regrab));
      && s1.result == Ok(())
      && !Holds(s2.handlers, h)
      && s3.result == Ok(())
      && Holds(s3.handlers, h)
  {
    var id: ListenerId := (keycode, h.modifiers);
    WorkerRegister(m, h, first, keycode, grab);
    var m1 := m[id := Entry(h, first)];
    assert m1[id].hotkey == h;
    assert UniqueHotkeys(m1);
    WorkerUnregister(m1, h, keycode, ungrab);
    var m2: ListenerMap := m1 - {Lookup(m1, h)};
    WorkerRegister(m2, h, second, keycode, regrab);
    var m3: ListenerMap := m2[id := Entry(h, second)];
    assert m3[id].hotkey == h;
  }

  /** The registry of a single entry lists exactly its hotkey. */
  lemma SingletonBag(id: ListenerId, e: Entry)
    ensures HotkeyBag(map[id := e]) == multiset{e.hotkey}
  {
    var empty: ListenerMap := map[];
    BagInsert(empty, id, e);
    assert empty - {id} == empty;
  }

  /** Two distinct hotkeys registered under distinct native ids are both
      listed; releasing the first leaves only the second. */
  lemma {:induction false} TwoHotkeys(h1: ListenerHotkey, h2: ListenerHotkey, c1: Handler, c2: Handler,
                                      k1: uint8, k2: uint8, n1: int32, n2: int32, n3: int32)
    requires h1 != h2 && (k1, h1.modifiers) != (k2, h2.modifiers) && n1 != 0 && n2 != 0 && n3 != 0
    ensures var id1: ListenerId, id2: ListenerId := (k1, h1.modifiers), (k2, h2.modifiers);
      var m1 := map[id1 := Entry(h1, c1)];
      var m2 := m1[id2 := Entry(h2, c2)];
      && RegisterStep(map[], h1, c1, Serve(RegisterRequest(h1), k1, n1)) == Step(m1, [RegisterRequest(h1)], Ok(()))
      && HotkeyBag(m1) == multiset{h1}
      && RegisterStep(m1, h2, c2, Serve(RegisterRequest(h2), k2, n2)) == Step(m2, [RegisterRequest(h2)], Ok(()))
      && HotkeyBag(m2) == multiset{h1, h2}
      && Lookup(m2, h1) == id1
      && UnregisterStep(m2, h1, Serve(UnregisterRequest(id1), k1, n3)) ==
           Step(map[id2 := Entry(h2, c2)], [UnregisterRequest(id1)], Ok(()))
      && HotkeyBag(map[id2 := Entry(h2, c2)]) == multiset{h2}
  {
    TwoRegistrations(h1, h2, c1, c2, k1, k2, n1, n2);
    var m1 := map[(k1, h1.modifiers) := Entry(h1, c1)];
    UnregisterTheFirst(m1[(k2, h2.modifiers) := Entry(h2, c2)], (k1, h1.modifiers), (k2, h2.modifiers),
                       Entry(h1, c1), Entry(h2, c2), k1, n3);
  }

  lemma TwoRegistrations(h1: ListenerHotkey, h2: ListenerHotkey, c1: Handler, c2: Handler,
                         k1: uint8, k2: uint8, n1: int32, n2: int32)
    requires h1 != h2 && (k1, h1.modifiers) != (k2, h2.modifiers) && n1 != 0 && n2 != 0
    ensures var m1 := map[(k1, h1.modifiers) := Entry(h1, c1)];
      var m2 := m1[(k2, h2.modifiers) := Entry(h2, c2)];
      && RegisterStep(map[], h1, c1, Serve(RegisterRequest(h1), k1, n1)) == Step(m1, [RegisterRequest(h1)], Ok(()))
      && HotkeyBag(m1) == multiset{h1}
      && RegisterStep(m1, h2, c2, Serve(RegisterRequest(h2), k2, n2)) == Step(m2, [RegisterRequest(h2)], Ok(()))
      && HotkeyBag(m2) == multiset{h1, h2}
  {
    var id1: ListenerId, id2: ListenerId := (k1, h1.modifiers), (k2, h2.modifiers);
    var e1, e2 := Entry(h1, c1), Entry(h2, c2);
    var empty: ListenerMap := map[];
    GrantedStep(empty, h1, c1, k1, n1);
    SingletonBag(id1, e1);
    var m1 := map[id1 := e1];
    assert m1.Keys == {id1};
    assert !Holds(m1, h2);
    GrantedStep(m1, h2, c2, k2, n2);
    PairBag(id1, e1, id2, e2);
  }

  lemma PairBag(id1: ListenerId, e1: Entry, id2: ListenerId, e2: Entry)
    requires id1 != id2
    ensures HotkeyBag(map[id1 := e1][id2 := e2]) == multiset{e1.hotkey, e2.hotkey}
  {
    var m1 := map[id1 := e1];
    calc {
      HotkeyBag(m1[id2 := e2]);
    == { BagInsert(m1, id2, e2); }
      HotkeyBag(m1 - {id2}) + multiset{e2.hotkey};
    == { assert m1 - {id2} == m1; }
      HotkeyBag(m1) + multiset{e2.hotkey};
    == { SingletonBag(id1, e1); }
      multiset{e1.hotkey} + multiset{e2.hotkey};
    }
  }

  /** A granted registration through the worker, as one equation. */
  lemma GrantedStep(m: ListenerMap, h: ListenerHotkey, handler: Handler, keycode: uint8, native: int32)
    requires !Holds(m, h) && native != 0
    ensures RegisterStep(m, h, handler, Serve(RegisterRequest(h), keycode, native)) ==
      Step(m[(keycode, h.modifiers) := Entry(h, handler)], [RegisterRequest(h)], Ok(()))
  {
  }

  lemma UnregisterTheFirst(m2: ListenerMap, id1: ListenerId, id2: ListenerId, e1: Entry, e2: Entry,
                           keycode: uint8, native: int32)
    requires id1 != id2 && e1.hotkey != e2.hotkey && id1 != NotFound && id2 != NotFound && native != 0
    requires m2 == map[id1 := e1, id2 := e2]
    ensures Lookup(m2, e1.hotkey) == id1
    ensures UnregisterStep(m2, e1.hotkey, Serve(UnregisterRequest(id1), keycode, native)) ==
      Step(map[id2 := e2], [UnregisterRequest(id1)], Ok(()))
    ensures HotkeyBag(map[id2 := e2]) == multiset{e2.hotkey}
  {
    assert m2[id1].hotkey == e1.hotkey;
    assert UniqueHotkeys(m2);
    assert Lookup(m2, e1.hotkey) == id1;
    WorkerUnregister(m2, e1.hotkey, keycode, native);
    assert m2 - {id1} == map[id2 := e2];
    SingletonBag(id2, e2);
  }

  /** After a successful registration, the release of that key combination
      runs the new callback. */
  lemma RegisteredHandlerFires(m: ListenerMap, h: ListenerHotkey, handler: Handler, keycode: uint8, native: int32)
    requires !Holds(m, h) && native != 0
    ensures var s := RegisterStep(m, h, handler, Serve(RegisterRequest(h), keycode, native));
      Dispatch(s.handlers, Some(KeyRelease(keycode, h.modifiers))) == Some(handler)
  {
  }
}
