/** The state of the watch face (src/main.c:46-55) and the handlers that change it:
    the tick handler, the settings inbox, the window load, the radius animation, and the
    layer's update procedure. */
module WatchFace {
  import opened Geometry
  import opened ShadowTable
  import opened Drawing

  /** The message and storage keys (main.c:3-6). */
  const KeyBgColor := 0
  const KeyMinuteColor := 1
  const KeyHourColor := 2
  const KeyPegColor := 3

  /** The SDK colours the face falls back on, in the 8-bit argb encoding: opaque, with
      two bits per channel (`GColorBlack` 0xC0, `GColorWhite` 0xFF, `GColorRed` 0xF0,
      `GColorDarkGray` 0xD5). */
  const Black: Color := Pack(Fields(3, 0, 0, 0))
  const White: Color := Pack(Fields(3, 3, 3, 3))
  const Red: Color := Pack(Fields(3, 3, 0, 0))
  const DarkGray: Color := Pack(Fields(3, 1, 1, 1))

  /** A received dictionary or the persistent store: an integer value per key.
      `GColorFromHEX` is a parameter `fromHex` throughout. */
  type Dict = map<int, int>

  /** `persist_exists(key) ? GColorFromHEX(persist_read_int(key)) : default`: the colour kept
      under `key`, or `default` when there is none. */
  function Stored(store: Dict, key: int, default: Color, fromHex: int -> Color): Color
  {
    if key in store then fromHex(store[key]) else default
  }

  /** The palette `window_load` sets up (main.c:203-227): each colour from the store when
      it holds one, its default otherwise, and the shadow from the background. */
  function LoadedPalette(store: Dict, fromHex: int -> Color): Palette
  {
    var bg := Stored(store, KeyBgColor, Black, fromHex);
    Palette(bg, Stored(store, KeyMinuteColor, White, fromHex), Stored(store, KeyHourColor, Red, fromHex),
            Stored(store, KeyPegColor, DarkGray, fromHex), ShadowFor(bg))
  }

  /** The shadow is the one the table gives for the background. */
  predicate ShadowConsistent(p: Palette)
  {
    p.shadow == ShadowFor(p.bg)
  }

  /** The colours after `inbox_received_handler` (main.c:63-83): each colour whose key the
      message carries, and the shadow with the background. */
  function ApplyMessage(p: Palette, msg: Dict, fromHex: int -> Color): Palette
  {
    var bg := Stored(msg, KeyBgColor, p.bg, fromHex);
    Palette(bg, Stored(msg, KeyMinuteColor, p.minute, fromHex), Stored(msg, KeyHourColor, p.hour, fromHex),
            Stored(msg, KeyPegColor, p.peg, fromHex),
            if KeyBgColor in msg then ShadowFor(bg) else p.shadow)
  }

  /** The four colour keys the handler looks up. */
  predicate IsColorKey(k: int)
  {
    k == KeyBgColor || k == KeyMinuteColor || k == KeyHourColor || k == KeyPegColor
  }

  /** `persist_write_int(key, value)` when the message carries `key`. */
  function Written(store: Dict, msg: Dict, key: int): Dict
  {
    if key in msg then store[key := msg[key]] else store
  }

  /** The store after `inbox_received_handler` (main.c:63-83) writes each colour key the
      message carries, in key order. */
  function Persist(store: Dict, msg: Dict): Dict
  {
    Written(Written(Written(Written(store, msg, KeyBgColor), msg, KeyMinuteColor), msg, KeyHourColor), msg, KeyPegColor)
  }

  /** The store keeps what it had, takes the four colour keys from the message, and nothing
      else: other keys in the message are not written. */
  lemma PersistWrites(store: Dict, msg: Dict)
    ensures forall k :: k in Persist(store, msg) <==> k in store || (k in msg && IsColorKey(k))
    ensures forall k :: k in Persist(store, msg) ==>
      Persist(store, msg)[k] == if k in msg && IsColorKey(k) then msg[k] else store[k]
  {
  }

  /** A colour changes exactly when its key is in the message, to the colour the message
      gives; the shadow follows the background only when the background key is there. */
  lemma MessageChangesItsKeys(p: Palette, msg: Dict, fromHex: int -> Color)
    ensures var r := ApplyMessage(p, msg, fromHex);
      && (KeyBgColor in msg ==> r.bg == fromHex(msg[KeyBgColor]) && r.shadow == ShadowFor(r.bg))
      && (KeyBgColor !in msg ==> r.bg == p.bg && r.shadow == p.shadow)
      && r.minute == (if KeyMinuteColor in msg then fromHex(msg[KeyMinuteColor]) else p.minute)
      && r.hour == (if KeyHourColor in msg then fromHex(msg[KeyHourColor]) else p.hour)
      && r.peg == (if KeyPegColor in msg then fromHex(msg[KeyPegColor]) else p.peg)
  {
  }

  /** Receiving the same settings twice leaves the colours as receiving them once. */
  lemma ApplyIdempotent(p: Palette, msg: Dict, fromHex: int -> Color)
    ensures ApplyMessage(ApplyMessage(p, msg, fromHex), msg, fromHex) == ApplyMessage(p, msg, fromHex)
  {
  }

  /** Storing the same settings twice leaves the store as storing them once. */
  lemma PersistIdempotent(store: Dict, msg: Dict)
    ensures Persist(Persist(store, msg), msg) == Persist(store, msg)
  {
  }

  /** A message that does not carry the background key leaves the shadow as it was,
      whatever minute, hour or peg colours it sets. */
  lemma ShadowOnlyFromBackground(p: Palette, msg: Dict, fromHex: int -> Color)
    requires KeyBgColor !in msg
    ensures ApplyMessage(p, msg, fromHex).shadow == p.shadow
    ensures ApplyMessage(p, msg, fromHex).bg == p.bg
  {
  }

  /** Received settings keep the shadow matched to the background. */
  lemma ApplyKeepsShadowConsistent(p: Palette, msg: Dict, fromHex: int -> Color)
    requires ShadowConsistent(p)
    ensures ShadowConsistent(ApplyMessage(p, msg, fromHex))
  {
  }

  /** Loading what a message stored gives the colours the message set: the handler's live
      update and a later `window_load` agree. */
  lemma PersistThenLoad(store: Dict, msg: Dict, fromHex: int -> Color)
    ensures LoadedPalette(Persist(store, msg), fromHex) == ApplyMessage(LoadedPalette(store, fromHex), msg, fromHex)
  {
    PersistedColor(store, msg, KeyBgColor, Black, fromHex);
    PersistedColor(store, msg, KeyMinuteColor, White, fromHex);
    PersistedColor(store, msg, KeyHourColor, Red, fromHex);
    PersistedColor(store, msg, KeyPegColor, DarkGray, fromHex);
  }

  /** After a message is stored, a colour key holds the message's value if it carried one,
      and what it held before otherwise. */
  lemma PersistedColor(store: Dict, msg: Dict, key: int, default: Color, fromHex: int -> Color)
    requires IsColorKey(key)
    ensures Stored(Persist(store, msg), key, default, fromHex) == Stored(msg, key, Stored(store, key, default, fromHex), fromHex)
  {
  }

  /** A loaded palette has its shadow matched to its background. */
  lemma LoadedShadowConsistent(store: Dict, fromHex: int -> Color)
    ensures ShadowConsistent(LoadedPalette(store, fromHex))
  {
  }

  /** With nothing stored, the face is a black background with a white minute hand, a red
      hour hand and a dark gray peg; the shadow of black is black. */
  lemma DefaultPalette(fromHex: int -> Color)
    ensures LoadedPalette(map[], fromHex) == Palette(Black, White, Red, DarkGray, Black)
  {
    UnpackPack(Fields(3, 0, 0, 0));
    ShadowForMeaning(Black);
    assert Pack(Unpack(ShadowFor(Black))) == ShadowFor(Black);
  }

  /** The face: the statics of main.c:46-55 that the handlers update. */
  class Face {
    var center: Point
    var lastTime: Time
    var radius: int
    var bg: Color
    var minute: Color
    var hour: Color
    var peg: Color
    var shadow: Color
    /** Whether `s_canvas_layer` exists, which it does once the window has loaded. */
    var hasLayer: bool
    /** How many times a redraw was requested with `layer_mark_dirty`. */
    var redraws: nat
    /** The persistent store behind `persist_read_int` and `persist_write_int`. */
    var store: Dict
    const fromHex: int -> Color

    /** The colours the face holds. */
    function Colors(): Palette
      reads this
    {
      Palette(bg, minute, hour, peg, shadow)
    }

    /** The statics before anything ran: zero, no layer yet, and what earlier runs stored. */
    constructor (stored: Dict, colorFromHex: int -> Color)
      ensures store == stored && fromHex == colorFromHex
      ensures center == Point(0, 0) && lastTime == Time(0, 0) && radius == 0
      ensures Colors() == Palette(0, 0, 0, 0, 0)
      ensures !hasLayer && redraws == 0
    {
      center, lastTime, radius := Point(0, 0), Time(0, 0), 0;
      bg, minute, hour, peg, shadow := 0, 0, 0, 0, 0;
      hasLayer, redraws := false, 0;
      store, fromHex := stored, colorFromHex;
    }

    /** `tick_handler` (main.c:116-126): stores the hour folded to 0..12 and the minute, and
        asks for a redraw once the layer exists. */
    method TickHandler(tmHour: int, tmMin: int)
      modifies this
      ensures lastTime == Time(StoredHour(tmHour), tmMin)
      ensures redraws == old(redraws) + (if hasLayer then 1 else 0)
      ensures center == old(center) && radius == old(radius) && Colors() == old(Colors())
      ensures hasLayer == old(hasLayer) && store == old(store)
    {
      var hours := tmHour;
      hours := hours - (if hours > 12 then 12 else 0);
      lastTime := Time(hours, tmMin);
      if hasLayer {
        redraws := redraws + 1;
      }
    }

    /** `gcolorshadow = (GColor8) shadowtable[alpha & gcolorbg.argb]` (main.c:67, 209): the
        shadow looked up for the current background. */
    method DeriveShadow()
      modifies this
      ensures shadow == ShadowFor(bg)
      ensures bg == old(bg) && minute == old(minute) && hour == old(hour) && peg == old(peg)
      ensures center == old(center) && lastTime == old(lastTime) && radius == old(radius)
      ensures redraws == old(redraws) && hasLayer == old(hasLayer) && store == old(store)
    {
      shadow := ShadowFor(bg);
    }

    /** `window_load` (main.c:197-232): the centre of the window, the colours from the store
        or their defaults, the shadow from the background, and the layer. */
    method WindowLoad(windowCenter: Point)
      modifies this
      ensures center == windowCenter
      ensures Colors() == LoadedPalette(store, fromHex)
      ensures hasLayer
      ensures lastTime == old(lastTime) && radius == old(radius) && redraws == old(redraws) && store == old(store)
    {
      center := windowCenter;
      bg, minute, hour, peg := Stored(store, KeyBgColor, Black, fromHex), Stored(store, KeyMinuteColor, White, fromHex),
        Stored(store, KeyHourColor, Red, fromHex), Stored(store, KeyPegColor, DarkGray, fromHex);
      DeriveShadow();
      hasLayer := true;
    }

    /** `inbox_received_handler` (main.c:57-87): stores and applies each colour present in the
        message, and asks for exactly one redraw once the layer exists. */
    method InboxReceived(msg: Dict)
      modifies this
      ensures store == Persist(old(store), msg)
      ensures Colors() == ApplyMessage(old(Colors()), msg, fromHex)
      ensures ShadowConsistent(old(Colors())) ==> ShadowConsistent(Colors())
      ensures redraws == old(redraws) + (if hasLayer then 1 else 0)
      ensures center == old(center) && lastTime == old(lastTime) && radius == old(radius) && hasLayer == old(hasLayer)
    {
      ghost var before := Colors();
      store := Written(store, msg, KeyBgColor);
      store := Written(store, msg, KeyMinuteColor);
      store := Written(store, msg, KeyHourColor);
      store := Written(store, msg, KeyPegColor);
      bg, minute, hour, peg := Stored(msg, KeyBgColor, bg, fromHex), Stored(msg, KeyMinuteColor, minute, fromHex),
        Stored(msg, KeyHourColor, hour, fromHex), Stored(msg, KeyPegColor, peg, fromHex);
      if KeyBgColor in msg {
        DeriveShadow();
      }
      if hasLayer {
        redraws := redraws + 1;
      }
      if ShadowConsistent(before) {
        ApplyKeepsShadowConsistent(before, msg, fromHex);
      }
    }

    /** `radius_update` (main.c:244-247): the radius for the animation's progress, and a redraw. */
    method RadiusUpdate(dist: int)
      modifies this
      ensures radius == AnimPercentage(dist, FinalRadius)
      ensures 0 <= dist <= AnimationNormalizedMax ==> 0 <= radius <= FinalRadius
      ensures redraws == old(redraws) + 1
      ensures center == old(center) && lastTime == old(lastTime) && Colors() == old(Colors())
      ensures hasLayer == old(hasLayer) && store == old(store)
    {
      radius := AnimPercentage(dist, FinalRadius);
      if 0 <= dist <= AnimationNormalizedMax {
        AnimPercentageRange(dist, FinalRadius);
      }
      redraws := redraws + 1;
    }

    /** `update_proc` (main.c:128-195), with `HAND_MARGIN_OUTER` expanded as the macro text
        reads: the calls it makes for the current time, radius and colours. The shadows are drawn by moving the hand
        end points down and back up again. */
    method UpdateProc(bounds: Rect, trig: Trig) returns (cmds: seq<Cmd>)
      ensures cmds == Render(AsWritten, Colors(), lastTime, radius, center, bounds, trig)
      ensures forall pen: Pen :: Paint(pen, cmds) == Picture(AsWritten, Colors(), lastTime, radius, center, bounds, trig)
    {
      cmds := [SetFillColor(bg), FillRect(bounds), SetAntialiased(true)];
      var minuteAngle := MinuteAngle(lastTime.minutes);
      var hourAngle := HourAngle(lastTime);
      var minuteOuter := HandEnd(center, minuteAngle, MinuteLength(AsWritten, radius), trig);
      var minuteInner := HandEnd(center, minuteAngle, HandMarginInner, trig);
      var hourOuter := HandEnd(center, hourAngle, HourLength(AsWritten, radius), trig);
      var hourInner := HandEnd(center, hourAngle, HandMarginInner, trig);
      ghost var hourHand, minuteHand := Hand(hourInner, hourOuter), Hand(minuteInner, minuteOuter);
      if HandsShown(AsWritten, radius) {
        var hands: seq<Cmd> := [];
        if HourShown(AsWritten, radius) {
          hourInner := hourInner.(y := hourInner.y + ShadowOffset);
          hourOuter := hourOuter.(y := hourOuter.y + ShadowOffset);
          hands := hands + Stroke(shadow, Hand(hourInner, hourOuter));
          hourInner := hourInner.(y := hourInner.y - ShadowOffset);
          hourOuter := hourOuter.(y := hourOuter.y - ShadowOffset);
        }
        if MinuteShown(AsWritten, radius) {
          minuteInner := minuteInner.(y := minuteInner.y + ShadowOffset + 1);
          minuteOuter := minuteOuter.(y := minuteOuter.y + ShadowOffset + 1);
          hands := hands + Stroke(shadow, Hand(minuteInner, minuteOuter));
          minuteInner := minuteInner.(y := minuteInner.y - (ShadowOffset + 1));
          minuteOuter := minuteOuter.(y := minuteOuter.y - (ShadowOffset + 1));
        }
        assert Hand(hourInner, hourOuter) == hourHand && Hand(minuteInner, minuteOuter) == minuteHand;
        if HourShown(AsWritten, radius) {
          hands := hands + Stroke(hour, Hand(hourInner, hourOuter));
        }
        if MinuteShown(AsWritten, radius) {
          hands := hands + Stroke(minute, Hand(minuteInner, minuteOuter));
        }
        cmds := cmds + hands;
      }
      cmds := cmds + [SetFillColor(peg), FillCircle(center, DotRadius)];
      assert cmds == Render(AsWritten, Colors(), lastTime, radius, center, bounds, trig);
      forall pen: Pen
        ensures Paint(pen, cmds) == Picture(AsWritten, Colors(), lastTime, radius, center, bounds, trig)
      {
        RenderPaintsPicture(AsWritten, Colors(), lastTime, radius, center, bounds, trig, pen);
      }
    }
  }
}
