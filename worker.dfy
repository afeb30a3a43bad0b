/** One iteration of the worker thread's loop, without the X11 connection:
    the native calls are replaced by the integers they return. */
module Worker {
  import opened HotkeyTypes
  import opened Registry

  /** The event `XNextEvent` hands over, reduced to what the worker reads. */
  datatype XEvent = KeyRelease(keycode: uint32, state: uint32) | OtherEvent

  /** The native id a key-release event is looked up under:
      the event's keycode cast to `i32`, and its modifier state. */
  function EventId(keycode: uint32, state: uint32): (id: ListenerId)
    ensures keycode < 0x100 ==> id == (keycode, state)
  {
    (AsInt32(keycode), state)
  }

  /** The event half: the callback the worker invokes for the pending event,
      if there is one. It only reads the map. */
  function Dispatch(m: ListenerMap, pending: Option<XEvent>): (fired: Option<Handler>)
    ensures fired.Some? <==>
      pending.Some? && pending.value.KeyRelease? && EventId(pending.value.keycode, pending.value.state) in m
    ensures fired.Some? ==> fired.value == m[EventId(pending.value.keycode, pending.value.state)].handler
  {
    match pending
    case Some(KeyRelease(keycode, state)) =>
      var id := EventId(keycode, state);
      if id in m then Some(m[id].handler) else None
    case _ => None
  }

  datatype CommandOutcome = Continue(reply: Option<HotkeyMessage>) | Terminate

  /** The command half: what the worker answers to the command it received,
      given `keycode`, the result of `XKeysymToKeycode` for the command's key,
      and `native`, the result of `XGrabKey` or `XUngrabKey`. `None` stands for
      an empty or disconnected channel, which is only logged. */
  function HandleCommand(command: Option<HotkeyMessage>, keycode: uint8, native: int32): (r: CommandOutcome)
    requires command.Some? ==> command.value.IsCommand()
    ensures r.Terminate? <==> command == Some(DropThread)
    ensures r.Continue? ==> (r.reply.Some? <==> command.Some?)
    ensures r.Continue? && r.reply.Some? ==> command.value.IsAnsweredBy(r.reply.value)
    ensures r.Continue? && r.reply.Some? && r.reply.value.RegisterHotkeyResult? && r.reply.value.registered.Ok? ==>
      r.reply.value.registered.value == (keycode, command.value.modifiers)
  {
    match command
    case None => Continue(None)
    case Some(RegisterHotkey(_, modifiers, _)) =>
      if native == 0 then Continue(Some(RegisterHotkeyResult(Err(BackendApiError(0)))))
      else Continue(Some(RegisterHotkeyResult(Ok((keycode, modifiers)))))
    case Some(UnregisterHotkey(_)) =>
      if native == 0 then Continue(Some(UnregisterHotkeyResult(Err(BackendApiError(0)))))
      else Continue(Some(UnregisterHotkeyResult(Ok(()))))
    case Some(DropThread) => Terminate
  }

  /** A grab is answered with its native id unless `XGrabKey` returned 0. */
  lemma RegisterReplies(requestId: ListenerId, modifiers: uint32, key: uint32, keycode: uint8, native: int32)
    ensures HandleCommand(Some(RegisterHotkey(requestId, modifiers, key)), keycode, native) ==
      Continue(Some(RegisterHotkeyResult(
        if native == 0 then Err(BackendApiError(0)) else Ok((keycode, modifiers)))))
  {
  }

  /** A release is answered with success unless `XUngrabKey` returned 0. */
  lemma UnregisterReplies(id: ListenerId, keycode: uint8, native: int32)
    ensures HandleCommand(Some(UnregisterHotkey(id)), keycode, native) ==
      Continue(Some(UnregisterHotkeyResult(
        if native == 0 then Err(BackendApiError(0)) else Ok(()))))
  {
  }
}
