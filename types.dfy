/** Value types shared by the hotkey listener: fixed-width integers, the
    hotkey itself, the native id, the error taxonomy and the messages that
    travel between the listener and its worker thread. */
module HotkeyTypes {

  type uint8 = x: int | 0 <= x < 0x100
  type uint32 = x: int | 0 <= x < 0x1_0000_0000
  type int32 = x: int | -0x8000_0000 <= x < 0x8000_0000

  /** Rust's `x as i32` on a `u32`: the same 32 bits read in two's complement. */
  function AsInt32(x: uint32): (r: int32)
    ensures (r - x) % 0x1_0000_0000 == 0
    ensures r == x <==> x < 0x8000_0000
  {
    if x < 0x8000_0000 then x else x - 0x1_0000_0000
  }

  datatype Option<T> = None | Some(value: T)

  /** A global shortcut: a modifier mask and a key symbol, compared field by field. */
  datatype ListenerHotkey = ListenerHotkey(modifiers: uint32, key: uint32)

  /** The native id of a grab: the X keycode (as `i32`) and the modifier mask. */
  type ListenerId = (int32, uint32)

  /** The value `unregister_hotkey` uses for "no entry holds this hotkey". */
  const NotFound: ListenerId := (-1, 0)

  datatype HotkeyError =
    | HotkeyAlreadyRegistered(hotkey: ListenerHotkey)
    | HotkeyNotRegistered(hotkey: ListenerHotkey)
    | BackendApiError(code: int)
    | ChannelError
    | Unknown

  datatype Result<T> = Ok(value: T) | Err(error: HotkeyError)

  /** The message set of the command channel (listener to worker) and of the
      response channel (worker to listener). */
  datatype HotkeyMessage =
    | RegisterHotkey(requestId: ListenerId, modifiers: uint32, key: uint32)
    | RegisterHotkeyResult(registered: Result<ListenerId>)
    | UnregisterHotkey(id: ListenerId)
    | UnregisterHotkeyResult(unregistered: Result<()>)
    | DropThread
  {
    /** The messages the listener sends to the worker. */
    predicate IsCommand() {
      RegisterHotkey? || UnregisterHotkey? || DropThread?
    }

    /** `reply` is the kind of response the listener waits for after sending this command. */
    predicate IsAnsweredBy(reply: HotkeyMessage)
      requires IsCommand()
    {
      (RegisterHotkey? ==> reply.RegisterHotkeyResult?) &&
      (UnregisterHotkey? ==> reply.UnregisterHotkeyResult?) &&
      !DropThread?
    }
  }
}
