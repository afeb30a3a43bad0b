/** The X11 `Listener`: its registry, its three public operations and the
    worker's loop body. The request/response round trip over the two channels
    is collapsed into one synchronous `Exchange`. */
module LinuxListener {
  import opened HotkeyTypes
  import opened Registry
  import opened Worker

  /** How one request/response round trip went: the send failed, the receive
      failed, or this message came back. */
  datatype Exchange = SendFailed | RecvFailed | Reply(message: HotkeyMessage)

  /** The effect of one listener call: the new map, the messages put on the
      command channel, and the value returned. */
  datatype Step = Step(handlers: ListenerMap, sent: seq<HotkeyMessage>, result: Result<()>)

  /** The command `register_hotkey` sends; the id field is a placeholder. */
  function RegisterRequest(h: ListenerHotkey): (msg: HotkeyMessage)
    ensures msg.IsCommand() && msg.RegisterHotkey? && msg.modifiers == h.modifiers && msg.key == h.key
  {
    RegisterHotkey((0, 0), h.modifiers, h.key)
  }

  function UnregisterRequest(id: ListenerId): (msg: HotkeyMessage)
    ensures msg.IsCommand() && msg.UnregisterHotkey? && msg.id == id
  {
    UnregisterHotkey(id)
  }

  /** The exchange the worker produces for `request`: its answer, or a failed
      receive when it stops without answering. */
  function Serve(request: HotkeyMessage, keycode: uint8, native: int32): (ex: Exchange)
    requires request.IsCommand()
    ensures ex != SendFailed
    ensures ex.Reply? <==> !request.DropThread?
    ensures ex.Reply? ==> request.IsAnsweredBy(ex.message)
  {
    match HandleCommand(Some(request), keycode, native)
    case Continue(Some(reply)) => Reply(reply)
    case _ => RecvFailed
  }

  /** `register_hotkey`: a duplicate check by value, one exchange, and on a
      granted id an insertion under that id. */
  function RegisterStep(m: ListenerMap, hotkey: ListenerHotkey, handler: Handler, exchange: Exchange): (s: Step)
    ensures s.result.Ok? <==>
      !Holds(m, hotkey) && exchange.Reply? && exchange.message.RegisterHotkeyResult? && exchange.message.registered.Ok?
    ensures s.result.Ok? ==> s.handlers == m[exchange.message.registered.value := Entry(hotkey, handler)]
    ensures s.result.Err? ==> s.handlers == m
    ensures s.sent == if Holds(m, hotkey) || exchange.SendFailed? then [] else [RegisterRequest(hotkey)]
    ensures UniqueHotkeys(m) ==> UniqueHotkeys(s.handlers)
  {
    if Holds(m, hotkey) then Step(m, [], Err(HotkeyAlreadyRegistered(hotkey)))
    else
      var request := RegisterRequest(hotkey);
      match exchange
      case SendFailed => Step(m, [], Err(ChannelError))
      case Reply(RegisterHotkeyResult(Ok(id))) => Step(m[id := Entry(hotkey, handler)], [request], Ok(()))
      case Reply(RegisterHotkeyResult(Err(e))) => Step(m, [request], Err(e))
      case RecvFailed => Step(m, [request], Err(ChannelError))
      case Reply(_) => Step(m, [request], Err(Unknown))
  }

  /** The native id `unregister_hotkey` finds for `h`: an entry holding `h`,
      or `NotFound` when there is none. */
  ghost function Lookup(m: ListenerMap, h: ListenerHotkey): (id: ListenerId)
    ensures id in m && m[id].hotkey == h <==> Holds(m, h)
    ensures !Holds(m, h) ==> id == NotFound
  {
    if Holds(m, h) then var id :| id in m && m[id].hotkey == h; id else NotFound
  }

  /** `unregister_hotkey`: a lookup by value, the send, then the removal of the
      entry, which stands whatever the worker answers. */
  ghost function UnregisterStep(m: ListenerMap, hotkey: ListenerHotkey, exchange: Exchange): (s: Step)
    ensures Lookup(m, hotkey) == NotFound ==> s.result == Err(HotkeyNotRegistered(hotkey))
    ensures s.result.Ok? ==> Lookup(m, hotkey) != NotFound && exchange.Reply? && exchange.message.UnregisterHotkeyResult?
    ensures s.sent == if Lookup(m, hotkey) == NotFound || exchange.SendFailed? then [] else [UnregisterRequest(Lookup(m, hotkey))]
    ensures s.handlers == if s.sent == [] then m else m - {Lookup(m, hotkey)}
    ensures UniqueHotkeys(m) ==> UniqueHotkeys(s.handlers)
  {
    var id := Lookup(m, hotkey);
    if id == NotFound then Step(m, [], Err(HotkeyNotRegistered(hotkey)))
    else
      var request := UnregisterRequest(id);
      match exchange
      case SendFailed => Step(m, [], Err(ChannelError))
      case Reply(UnregisterHotkeyResult(Ok(_))) => Step(m - {id}, [request], Ok(()))
      case Reply(UnregisterHotkeyResult(Err(e))) => Step(m - {id}, [request], Err(e))
      case RecvFailed => Step(m - {id}, [request], Err(ChannelError))
      case Reply(_) => Step(m - {id}, [request], Err(Unknown))
  }

  class Listener {
    /** The map shared with the worker thread. */
    var handlers: ListenerMap
    /** Every message put on the command channel, oldest first. */
    var commands: seq<HotkeyMessage>
    /** Every callback the worker invoked, oldest first. */
    var fired: seq<Handler>

    ghost predicate Valid()
      reads this
    {
      UniqueHotkeys(handlers)
    }

    /** `new`: the registry starts empty (the worker thread and its display
        connection are not modelled). */
    constructor ()
      ensures Valid()
      ensures handlers == map[] && commands == [] && fired == []
    {
      handlers, commands, fired := map[], [], [];
    }

    /** The duplicate check of `register_hotkey`: a scan of the map's values. */
    method HasHotkey(hotkey: ListenerHotkey) returns (found: bool)
      ensures found <==> Holds(handlers, hotkey)
    {
      var unvisited := handlers.Keys;
      while unvisited != {}
        invariant unvisited <= handlers.Keys
        invariant forall id | id in handlers && id !in unvisited :: handlers[id].hotkey != hotkey
        decreases unvisited
      {
        var id :| id in unvisited;
        if handlers[id].hotkey == hotkey {
          return true;
        }
        unvisited := unvisited - {id};
      }
      return false;
    }

    /** The lookup of `unregister_hotkey`: the id of the first entry met that
        holds `hotkey`, or `NotFound`. */
    method FindId(hotkey: ListenerHotkey) returns (found: ListenerId)
      ensures found != NotFound ==> found in handlers && handlers[found].hotkey == hotkey
      ensures found == NotFound ==>
        !Holds(handlers, hotkey) || (NotFound in handlers && handlers[NotFound].hotkey == hotkey)
      ensures UniqueHotkeys(handlers) ==> found == Lookup(handlers, hotkey)
    {
      found := NotFound;
      var unvisited := handlers.Keys;
      while unvisited != {}
        invariant unvisited <= handlers.Keys
        invariant forall id | id in handlers && id !in unvisited :: handlers[id].hotkey != hotkey
        decreases unvisited
      {
        var id :| id in unvisited;
        if handlers[id].hotkey == hotkey {
          found := id;
          break;
        }
        unvisited := unvisited - {id};
      }
    }

    method RegisterHotkey(hotkey: ListenerHotkey, handler: Handler, exchange: Exchange) returns (r: Result<()>)
      requires Valid()
      modifies this
      ensures Valid()
      ensures var s := RegisterStep(old(handlers), hotkey, handler, exchange);
        handlers == s.handlers && commands == old(commands) + s.sent && r == s.result
      ensures fired == old(fired)
    {
      var duplicate := HasHotkey(hotkey);
      if duplicate {
        return Err(HotkeyAlreadyRegistered(hotkey));
      }
      if exchange.SendFailed? {
        return Err(ChannelError);
      }
      commands := commands + [RegisterRequest(hotkey)];
      match exchange
      case Reply(RegisterHotkeyResult(Ok(id))) =>
        handlers := handlers[id := Entry(hotkey, handler)];
        r := Ok(());
      case Reply(RegisterHotkeyResult(Err(e))) =>
        r := Err(e);
      case RecvFailed =>
        r := Err(ChannelError);
      case _ =>
        r := Err(Unknown);
    }

    method UnregisterHotkey(hotkey: ListenerHotkey, exchange: Exchange) returns (r: Result<()>)
      requires Valid()
      modifies this
      ensures Valid()
      ensures var s := UnregisterStep(old(handlers), hotkey, exchange);
        handlers == s.handlers && commands == old(commands) + s.sent && r == s.result
      ensures fired == old(fired)
    {
      var found := FindId(hotkey);
      if found == NotFound {
        return Err(HotkeyNotRegistered(hotkey));
      }
      if exchange.SendFailed? {
        return Err(ChannelError);
      }
      commands := commands + [UnregisterRequest(found)];
      // the entry was found above, so the removal always takes something out
      assert found in handlers;
      handlers := handlers - {found};
      match exchange
      case Reply(UnregisterHotkeyResult(Ok(_))) =>
        r := Ok(());
      case Reply(UnregisterHotkeyResult(Err(e))) =>
        r := Err(e);
      case RecvFailed =>
        r := Err(ChannelError);
      case _ =>
        r := Err(Unknown);
    }

    /** `registered_hotkeys`: the hotkey of every entry, in the map's
        (unspecified) iteration order. */
    method RegisteredHotkeys() returns (result: seq<ListenerHotkey>)
      ensures multiset(result) == HotkeyBag(handlers)
      ensures |result| == |handlers|
      ensures forall h :: h in result <==> Holds(handlers, h)
      ensures UniqueHotkeys(handlers) ==> forall i, j | 0 <= i < j < |result| :: result[i] != result[j]
    {
      result := [];
      var unvisited := handlers;
      while unvisited != map[]
        invariant multiset(result) + HotkeyBag(unvisited) == HotkeyBag(handlers)
        decreases |unvisited|
      {
        var id :| id in unvisited;
        BagRemove(unvisited, id);
        CardRemove(unvisited, id);
        result := result + [unvisited[id].hotkey];
        unvisited := unvisited - {id};
      }
      ListingOfBag(handlers, result);
    }

    /** One pass of the worker loop: dispatch the pending event, if any, then
        answer the pending command, if any. */
    method WorkerStep(pending: Option<XEvent>, command: Option<HotkeyMessage>, keycode: uint8, native: int32)
      returns (outcome: CommandOutcome)
      requires Valid()
      requires command.Some? ==> command.value.IsCommand()
      modifies this
      ensures Valid()
      ensures handlers == old(handlers) && commands == old(commands)
      ensures fired == old(fired) + match Dispatch(handlers, pending) case Some(h) => [h] case None => []
      ensures outcome == HandleCommand(command, keycode, native)
    {
      var target := Dispatch(handlers, pending);
      if target.Some? {
        fired := fired + [target.value];
      }
      outcome := HandleCommand(command, keycode, native);
    }
  }
}
