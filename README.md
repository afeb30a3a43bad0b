# Global hotkey listener (X11 backend), modelled in Dafny

The model covers the hotkey listener of `tauri-hotkey-sys` on Linux. A `Listener` keeps a registry:
a map from a native id to a registered hotkey and its callback. A native id is the pair
(X keycode, modifier mask). The registry is shared with a worker thread, which owns the X display.
The listener has three public operations:

- `register_hotkey` refuses a hotkey that some entry already holds. Otherwise it asks the worker to
  grab the key combination and, on success, inserts the entry under the native id the worker returns.
- `unregister_hotkey` finds the entry that holds the hotkey. A not-found sentinel `(-1, 0)` stands for
  "none". It then sends the release request and removes the entry before the answer arrives. The
  removal stays even when the worker reports a failure.
- `registered_hotkeys` lists the hotkey of every entry.

On each pass of its loop, the worker does two things. If a key-release event is pending, it looks up
`(keycode as i32, state)` in the map and calls that entry's callback. Then it answers at most one
command: a grab, a release, or the shutdown.

Files and modules:

- `types.dfy` (`HotkeyTypes`): fixed-width integers, the Rust `u32`→`i32` cast, `ListenerHotkey`,
  `ListenerId`, `HotkeyError` and the `HotkeyMessage` protocol.
- `registry.dfy` (`Registry`): the map, the "no two entries hold equal hotkeys" invariant, and the
  multiset of listed hotkeys with its lemmas.
- `worker.dfy` (`Worker`): the command half of the loop body as a function of the native calls'
  results, and the event half as a read-only lookup.
- `listener.dfy` (`LinuxListener`): `RegisterStep` and `UnregisterStep`, the functions that specify the
  listener operations, and the `Listener` class. The class has the map as a field and the three
  operations plus the worker pass as methods. Each method's postcondition ties the new state to the
  specification function.
- `properties.dfy` (`ListenerProperties`): what the operations promise alone and in sequence.

The two channels are collapsed into a single synchronous `Exchange` parameter: the send failed, the
receive failed, or a given message came back. `Serve` builds the exchange that the worker's own answer
produces, so the lemmas named `Worker…` and the scenarios run the listener and the worker together.
Native results are parameters. `keycode` is what `XKeysymToKeycode` returned, a `u8`. `native` is what
`XGrabKey` or `XUngrabKey` returned. A callback is represented by its identity (`Handler`). The worker
records each callback it runs in the `fired` trace. The `commands` field records each message put on
the command channel.

Behaviour the proofs make explicit:

- Insertion is `old[id := entry]`. Two different hotkeys can get the same native id, for example two
  key symbols on one keycode with the same modifiers. In that case the second registration replaces the
  first entry and still reports success (`GrantedIdReplaces`). The map still never holds a hotkey twice.
- An entry stored under the sentinel `(-1, 0)` could never be released (`SentinelEntryNotReleased`). The
  worker never grants that id, because the keycode is a `u8` widened to `i32` (`WorkerRegister`).
- The `panic!` after the removal in `unregister_hotkey` cannot happen, because the lookup has just found
  the entry (an `assert` in `Listener.UnregisterHotkey`).

Three further points of the code that the model keeps as written:

- The code removes the entry before the release is confirmed and never puts it back. After a failed
  `XUngrabKey` the key stays grabbed while the registry no longer lists it.
- A failed grab or release is always reported as `BackendApiError(0)`.
- The registry's uniqueness per native id is not checked. The code relies on the worker, and the
  worker can hand out the same id twice, as described above.

## Model

| member | source | states |
|---|---|---|
| HotkeyTypes.AsInt32 | tauri-hotkey-sys/Source/linux.rs:293 | the `as i32` cast keeps the value modulo 2^32 and is the identity exactly on values below 2^31 |
| Registry.BagRemove | tauri-hotkey-sys/Source/linux.rs:423-425 | the listed multiset does not depend on the visiting order: taking out any entry takes out exactly its hotkey |
| Registry.BagInsert | tauri-hotkey-sys/Source/linux.rs:379 | after `insert(id, e)` the listing is the old listing without the entry under `id`, plus `e`'s hotkey |
| Registry.BagSize | tauri-hotkey-sys/Source/linux.rs:420-428 | the listing has exactly one element per map entry |
| Registry.BagHolds | tauri-hotkey-sys/Source/linux.rs:420-428 | a hotkey is listed if and only if some entry holds it |
| Registry.BagUnique | tauri-hotkey-sys/Source/linux.rs:367-371 | when no two entries hold equal hotkeys, no hotkey is listed twice |
| Registry.ListingOfBag | tauri-hotkey-sys/Source/linux.rs:420-428 | any sequence with the listing's multiset has one element per entry, holds exactly the registered hotkeys, and holds none twice under the invariant |
| Worker.EventId | tauri-hotkey-sys/Source/linux.rs:293 | a key-release event is looked up under `(keycode as i32, state)`, which is `(keycode, state)` for real X keycodes |
| Worker.Dispatch | tauri-hotkey-sys/Source/linux.rs:286-298 | a callback runs only for a pending key-release event whose id is a map key, and it is that entry's callback |
| Worker.HandleCommand | tauri-hotkey-sys/Source/linux.rs:300-354 | only `DropThread` ends the loop; every other command gets exactly one reply of the matching kind; nothing pending gives no reply; a granted id is the keycode with the requested modifiers |
| Worker.RegisterReplies | tauri-hotkey-sys/Source/linux.rs:301-326 | a grab is answered `Err(BackendApiError(0))` when `XGrabKey` returns 0, and `Ok((keycode, modifiers))` otherwise |
| Worker.UnregisterReplies | tauri-hotkey-sys/Source/linux.rs:327-342 | a release is answered `Err(BackendApiError(0))` when `XUngrabKey` returns 0, and `Ok(())` otherwise |
| LinuxListener.RegisterRequest | tauri-hotkey-sys/Source/linux.rs:373-375 | the grab request carries the hotkey's modifiers and key |
| LinuxListener.UnregisterRequest | tauri-hotkey-sys/Source/linux.rs:404-406 | the release request carries the id that was found |
| LinuxListener.Serve | tauri-hotkey-sys/Source/linux.rs:300-354 | with the worker answering, the send never fails, and every command except the shutdown is answered with a reply of its own kind |
| LinuxListener.RegisterStep | tauri-hotkey-sys/Source/linux.rs:364-387 | success exactly for a new hotkey answered with a granted id; then the map is the old map with the entry under that id; on every error the map is unchanged; the request is sent unless the hotkey is a duplicate or the send failed; the invariant is preserved |
| LinuxListener.Lookup | tauri-hotkey-sys/Source/linux.rs:390-398 | the id found holds the hotkey if and only if some entry holds it; otherwise it is the sentinel |
| LinuxListener.UnregisterStep | tauri-hotkey-sys/Source/linux.rs:389-418 | a sentinel lookup returns `HotkeyNotRegistered`; success needs a found id and an unregister reply; the map loses exactly the found entry once the request is sent and is unchanged otherwise; the invariant is preserved |
| LinuxListener.Listener.constructor | tauri-hotkey-sys/Source/linux.rs:260-261 | a new listener has an empty registry |
| LinuxListener.Listener.HasHotkey | tauri-hotkey-sys/Source/linux.rs:367-371 | the scan of the values answers true if and only if some entry holds the hotkey |
| LinuxListener.Listener.FindId | tauri-hotkey-sys/Source/linux.rs:390-398 | a non-sentinel answer is an entry holding the hotkey; the sentinel means no entry holds it or the sentinel itself does; under the invariant it is the `Lookup` answer |
| LinuxListener.Listener.RegisterHotkey | tauri-hotkey-sys/Source/linux.rs:364-387 | the new map, the sent messages and the result are those of `RegisterStep`; the invariant is kept; no callback runs |
| LinuxListener.Listener.UnregisterHotkey | tauri-hotkey-sys/Source/linux.rs:389-418 | the new map, the sent messages and the result are those of `UnregisterStep`; the invariant is kept; no callback runs |
| LinuxListener.Listener.RegisteredHotkeys | tauri-hotkey-sys/Source/linux.rs:420-428 | the result is a permutation of the entries' hotkeys: one element per entry, exactly the registered hotkeys, none twice under the invariant |
| LinuxListener.Listener.WorkerStep | tauri-hotkey-sys/Source/linux.rs:285-357 | a pass of the loop leaves the map unchanged, appends the dispatched callback (if any) to the trace, and answers the command as `HandleCommand` does |
| ListenerProperties.RegisterDuplicate | tauri-hotkey-sys/Source/linux.rs:367-371 | a hotkey some entry holds gets `HotkeyAlreadyRegistered(hotkey)`, nothing is sent, and the map is unchanged |
| ListenerProperties.RegisterGranted | tauri-hotkey-sys/Source/linux.rs:377-381 | an `Ok(id)` reply gives `Ok(())`, the map `old[id := (hotkey, handler)]`, and a listing that contains the hotkey |
| ListenerProperties.RegisterRefused | tauri-hotkey-sys/Source/linux.rs:373-386 | a failed send or receive gives `ChannelError`, an `Err(e)` reply gives `e`, and any other reply gives `Unknown`; the map is unchanged in each case |
| ListenerProperties.UnregisterAbsent | tauri-hotkey-sys/Source/linux.rs:389-402 | a hotkey no entry holds gets `HotkeyNotRegistered(hotkey)`, nothing is sent, and the map is unchanged |
| ListenerProperties.UnregisterPresent | tauri-hotkey-sys/Source/linux.rs:392-408 | once the request is sent, exactly the entry holding the hotkey is gone, every other entry is untouched, and the hotkey leaves the listing |
| ListenerProperties.UnregisterResponse | tauri-hotkey-sys/Source/linux.rs:404-417 | a failed send returns `ChannelError` before any removal; otherwise the removal stands, and the result is the reply's result, `ChannelError`, or `Unknown` |
| ListenerProperties.SentinelEntryNotReleased | tauri-hotkey-sys/Source/linux.rs:390-402 | an entry stored under the sentinel id is reported as not registered and is never removed |
| ListenerProperties.GrantedIdReplaces | tauri-hotkey-sys/Source/linux.rs:378-379 | a granted id that is already a key replaces that entry; its hotkey is no longer registered and the count stays the same |
| ListenerProperties.WorkerRegister | tauri-hotkey-sys/Source/linux.rs:301-326 | with the worker answering, registering a new hotkey succeeds exactly when the grab does, under `(keycode, modifiers)`; otherwise it gives `BackendApiError(0)` with the map unchanged; the sentinel never becomes a key |
| ListenerProperties.WorkerUnregister | tauri-hotkey-sys/Source/linux.rs:327-342 | with the worker answering, releasing a registered hotkey always removes its entry, and succeeds exactly when the ungrab does |
| ListenerProperties.RegisterThenUnregister | tauri-hotkey-sys/Source/lib.rs:70-78 | registering under a fresh id and then unregistering gives back the original map and listing |
| ListenerProperties.ReRegister | tauri-hotkey-sys/Source/lib.rs:57-88 | register, unregister, register of the same value: the second registration succeeds, whatever the release answered |
| ListenerProperties.TwoRegistrations | tauri-hotkey-sys/Source/lib.rs:41-55 | two distinct hotkeys with distinct native ids are both listed, one element each |
| ListenerProperties.TwoHotkeys | tauri-hotkey-sys/Source/lib.rs:41-61 | after two registrations, unregistering the first succeeds and leaves only the second listed |
| ListenerProperties.RegisteredHandlerFires | tauri-hotkey-sys/Source/linux.rs:286-298 | after a successful registration, a release of that keycode with those modifiers runs the new callback |

## Left out

- The X11 calls (`XOpenDisplay`, `XGrabKey`, `XUngrabKey`, `XKeysymToKeycode`, `XPending`/`XNextEvent`, `XkbSetDetectableAutoRepeat`, `XSelectInput`, `XCloseDisplay`) are foreign code. Their results are parameters: the keycode, the grab or ungrab result, and the pending event.
- The thread, the two `mpsc` channels, the `Arc<Mutex<..>>` locking and the 50 ms sleep are concurrency and timing. Each request/response round trip is one `Exchange` value, so interleavings of several callers are not modelled.
- A callback that panics while the worker holds the lock (linux.rs:290-296) poisons the mutex and ends the worker. Every later `lock().unwrap()` in `register_hotkey`, `unregister_hotkey` and `registered_hotkeys` then panics instead of returning `ChannelError`. These panics are not modelled: `SendFailed` and `RecvFailed` stand only for a worker that exited without poisoning the lock.
- A failed send of the worker's reply is not modelled; the code only logs it. In the synchronous collapse, no caller is waiting for such a reply.
- The `Drop` impl's fire-and-forget `DropThread` send is not modelled. The worker's handling of `DropThread` is modelled in `HandleCommand`.
- The `unreachable!` arm for result messages arriving on the command channel is excluded by `HandleCommand`'s precondition. Only the listener writes to that channel, and it sends only commands.
- The `modifiers` and `keys` constant tables are opaque `u32` data with no logic.
- Callback bodies are arbitrary closures. A callback is its `Handler` identity, and a call is an element of the `fired` trace.
- `eprintln!` logging, and the startup in `new()` beyond creating the empty registry, are not modelled.
- HashMap iteration order is not modelled. The scans in `HasHotkey`, `FindId` and `RegisteredHotkeys` visit entries in an arbitrary order, and `Lookup` picks an arbitrary matching entry. Both agree whenever no two entries hold equal hotkeys, which `Listener.Valid()` guarantees.
- An X event whose type is not a key release is one `OtherEvent` value. Its payload is not modelled.
- The macOS and Windows backends are not part of this model. `lib.rs` is used only for its tests, as evidence for the scenario lemmas.
