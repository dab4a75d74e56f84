/**
 * The single-slot render-event mailbox between the layer-surface callback and
 * the render pass: which events the callback stores, which it acknowledges,
 * and what the slot holds after any run of events.
 */
module RenderEvents {
  import opened Wrappers
  import opened Protocol

  /** What the render pass is told: new dimensions, or that the surface is gone. */
  datatype RenderEvent = Configure(width: U32, height: U32) | Closed

  /**
   * An event of the layer-surface protocol object as the callback receives
   * it. `OtherEvent` stands for any event the callback's catch-all arm ignores
   * (the protocol's event type is open to additions).
   */
  datatype LayerEvent =
    | ConfigureEvent(serial: U32, width: U32, height: U32)
    | ClosedEvent
    | OtherEvent

  /** The slot after the callback has handled `ev`: `Closed` always wins, a `Configure` replaces anything but `Closed`. */
  function SlotAfter(slot: Option<RenderEvent>, ev: LayerEvent): Option<RenderEvent>
  {
    match ev
    case ClosedEvent => Some(Closed)
    case ConfigureEvent(_, w, h) => if slot != Some(Closed) then Some(Configure(w, h)) else slot
    case OtherEvent => slot
  }

  /** The protocol requests the callback makes for `ev`: an acknowledgement exactly when it stores a `Configure`. */
  function AcksFor(slot: Option<RenderEvent>, ev: LayerEvent): seq<Effect>
  {
    match ev
    case ConfigureEvent(serial, _, _) => if slot != Some(Closed) then [AckConfigure(serial)] else []
    case _ => []
  }

  /** The slot after a run of events, handled one after the other. */
  function SlotAfterAll(slot: Option<RenderEvent>, evs: seq<LayerEvent>): Option<RenderEvent>
    decreases |evs|
  {
    if evs == [] then slot else SlotAfterAll(SlotAfter(slot, evs[0]), evs[1..])
  }

  /** The acknowledgements made during a run of events. */
  function AcksAfterAll(slot: Option<RenderEvent>, evs: seq<LayerEvent>): seq<Effect>
    decreases |evs|
  {
    if evs == [] then [] else AcksFor(slot, evs[0]) + AcksAfterAll(SlotAfter(slot, evs[0]), evs[1..])
  }

  // Reference definitions, written independently of the callback's rules.

  /** The dimensions of the last `Configure` of a run, looked up from its end. */
  function LastConfigure(evs: seq<LayerEvent>): Option<RenderEvent>
    decreases |evs|
  {
    if evs == [] then None
    else match evs[|evs| - 1]
      case ConfigureEvent(_, w, h) => Some(Configure(w, h))
      case _ => LastConfigure(evs[..|evs| - 1])
  }

  lemma {:induction false} LastConfigureIsConfigure(evs: seq<LayerEvent>)
    ensures LastConfigure(evs) == None || LastConfigure(evs).value.Configure?
    decreases |evs|
  {
    if evs != [] {
      LastConfigureIsConfigure(evs[..|evs| - 1]);
    }
  }

  /** The run of events up to, not including, its first `ClosedEvent`. */
  function BeforeFirstClose(evs: seq<LayerEvent>): seq<LayerEvent>
    decreases |evs|
  {
    if evs == [] || evs[0] == ClosedEvent then [] else [evs[0]] + BeforeFirstClose(evs[1..])
  }

  /** An acknowledgement for every `ConfigureEvent` of a run, in order. */
  function AckEveryConfigure(evs: seq<LayerEvent>): seq<Effect>
    decreases |evs|
  {
    if evs == [] then []
    else (if evs[0].ConfigureEvent? then [AckConfigure(evs[0].serial)] else []) + AckEveryConfigure(evs[1..])
  }

  predicate ClosedArrives(evs: seq<LayerEvent>)
  {
    exists i :: 0 <= i < |evs| && evs[i] == ClosedEvent
  }

  /** Once the slot holds `Closed`, no later event changes it and no later `Configure` is acknowledged. */
  lemma {:induction false} ClosedIsTerminal(evs: seq<LayerEvent>)
    ensures SlotAfterAll(Some(Closed), evs) == Some(Closed)
    ensures AcksAfterAll(Some(Closed), evs) == []
    decreases |evs|
  {
    if evs != [] {
      ClosedIsTerminal(evs[1..]);
    }
  }

  /** The slot ends up holding `Closed` exactly when it held it already or a `ClosedEvent` arrived. */
  lemma {:induction false} EndsClosedIffClosedArrives(slot: Option<RenderEvent>, evs: seq<LayerEvent>)
    ensures SlotAfterAll(slot, evs) == Some(Closed) <==> slot == Some(Closed) || ClosedArrives(evs)
    decreases |evs|
  {
    if evs == [] {
    } else if slot == Some(Closed) || evs[0] == ClosedEvent {
      ClosedIsTerminal(evs[1..]);
      assert SlotAfter(slot, evs[0]) == Some(Closed);
    } else {
      EndsClosedIffClosedArrives(SlotAfter(slot, evs[0]), evs[1..]);
      assert SlotAfter(slot, evs[0]) != Some(Closed);
      assert ClosedArrives(evs) <==> ClosedArrives(evs[1..]) by {
        if ClosedArrives(evs) {
          var i :| 0 <= i < |evs| && evs[i] == ClosedEvent;
          assert evs[1..][i - 1] == ClosedEvent;
        }
        if ClosedArrives(evs[1..]) {
          var i :| 0 <= i < |evs[1..]| && evs[1..][i] == ClosedEvent;
          assert evs[i + 1] == ClosedEvent;
        }
      }
    }
  }

  /** Handling one more event extends the run. */
  lemma {:induction false} SlotAfterAllSnoc(slot: Option<RenderEvent>, evs: seq<LayerEvent>, ev: LayerEvent)
    ensures SlotAfterAll(slot, evs + [ev]) == SlotAfter(SlotAfterAll(slot, evs), ev)
    decreases |evs|
  {
    if evs != [] {
      assert (evs + [ev])[1..] == evs[1..] + [ev];
      SlotAfterAllSnoc(SlotAfter(slot, evs[0]), evs[1..], ev);
    }
  }

  /** The acknowledgements of a run extended by one event. */
  lemma {:induction false} AcksAfterAllSnoc(slot: Option<RenderEvent>, evs: seq<LayerEvent>, ev: LayerEvent)
    ensures AcksAfterAll(slot, evs + [ev]) == AcksAfterAll(slot, evs) + AcksFor(SlotAfterAll(slot, evs), ev)
    decreases |evs|
  {
    if evs != [] {
      assert (evs + [ev])[1..] == evs[1..] + [ev];
      AcksAfterAllSnoc(SlotAfter(slot, evs[0]), evs[1..], ev);
    }
  }

  /**
   * Without a close, the slot holds the last `Configure` of the run, however
   * many came before it; with no `Configure` at all it keeps what it held.
   */
  lemma {:induction false} LatestConfigureWins(slot: Option<RenderEvent>, evs: seq<LayerEvent>)
    requires slot != Some(Closed) && !ClosedArrives(evs)
    ensures SlotAfterAll(slot, evs) == if LastConfigure(evs).Some? then LastConfigure(evs) else slot
    decreases |evs|
  {
    if evs != [] {
      var init, last := evs[..|evs| - 1], evs[|evs| - 1];
      assert evs == init + [last];
      forall i | 0 <= i < |init| ensures init[i] != ClosedEvent {
        assert init[i] == evs[i];
      }
      assert last != ClosedEvent by {
        assert evs[|evs| - 1] == last;
      }
      LatestConfigureWins(slot, init);
      SlotAfterAllSnoc(slot, init, last);
      assert LastConfigure(init) != Some(Closed) by { LastConfigureIsConfigure(init); }
      if last.ConfigureEvent? {
        assert LastConfigure(evs) == Some(Configure(last.width, last.height));
      } else {
        assert LastConfigure(evs) == LastConfigure(init);
      }
    }
  }

  /**
   * Starting from a slot that is not `Closed`, the callback acknowledges
   * every `ConfigureEvent` before the first `ClosedEvent`, in order, and
   * nothing else.
   */
  lemma {:induction false} AcksAreConfiguresBeforeClose(slot: Option<RenderEvent>, evs: seq<LayerEvent>)
    requires slot != Some(Closed)
    ensures AcksAfterAll(slot, evs) == AckEveryConfigure(BeforeFirstClose(evs))
    decreases |evs|
  {
    if evs == [] {
    } else if evs[0] == ClosedEvent {
      ClosedIsTerminal(evs[1..]);
    } else {
      AcksAreConfiguresBeforeClose(SlotAfter(slot, evs[0]), evs[1..]);
      var rest := BeforeFirstClose(evs[1..]);
      assert BeforeFirstClose(evs) == [evs[0]] + rest;
      assert ([evs[0]] + rest)[1..] == rest;
    }
  }

  /** Two configures before the slot is read: only the second size is kept, and both are acknowledged. */
  lemma TwoConfiguresKeepTheLast()
    ensures SlotAfterAll(None, [ConfigureEvent(1, 100, 100), ConfigureEvent(2, 200, 200)]) == Some(Configure(200, 200))
    ensures AcksAfterAll(None, [ConfigureEvent(1, 100, 100), ConfigureEvent(2, 200, 200)]) == [AckConfigure(1), AckConfigure(2)]
  {
  }
}
