/** The touch screen: a controller driver that counts touch points with a hidden index, and
    the board function whose own loop index has to stay in step with it. */
module Touch {
  import opened CInt
  import opened Geometry
  import opened Options

  const MAX_TOUCH := 5
  const ANCHOR_DISTANCE := 5

  const TD_STAT_REG := 0x02
  const GEST_ID_REG := 0x01
  const XH_REG := [0x03, 0x09, 0x0F, 0x15, 0x1B, 0x21, 0x27, 0x2D, 0x33, 0x39]
  const XL_REG := [0x04, 0x0A, 0x10, 0x16, 0x1C, 0x22, 0x28, 0x2E, 0x34, 0x3A]
  const YH_REG := [0x05, 0x0B, 0x11, 0x17, 0x1D, 0x23, 0x29, 0x2F, 0x35, 0x3B]
  const YL_REG := [0x06, 0x0C, 0x12, 0x18, 0x1E, 0x24, 0x2A, 0x30, 0x36, 0x3C]
  const WEIGHT_REG := [0x07, 0x0D, 0x13, 0x19, 0x1F, 0x25, 0x2B, 0x31, 0x37, 0x3D]
  const MISC_REG := [0x08, 0x0E, 0x14, 0x1A, 0x20, 0x26, 0x2C, 0x32, 0x38, 0x3E]

  datatype Status = TsOk | TsError
  datatype Event = NoEvent | PressDown | LiftUp | Contact
  datatype Gesture = NoGesture | MoveUp | MoveRight | MoveDown | MoveLeft | ZoomIn | ZoomOut

  /** The registers of the controller, one byte each. */
  predicate IsRegisters(regs: seq<int>) {
    |regs| == 0x100 && forall i :: 0 <= i < 0x100 ==> 0 <= regs[i] < 0x100
  }

  /** The touch points the controller reports; an impossible count means none. */
  function PointCount(regs: seq<int>): nat
    requires IsRegisters(regs)
  {
    var n := regs[TD_STAT_REG] % 0x10;
    if n > MAX_TOUCH then 0 else n
  }

  /** 12-bit coordinates and touch data of one point: each point has its six registers in a
      row, starting at register 3. */
  function PointX(regs: seq<int>, i: nat): (x: int)
    requires IsRegisters(regs) && i < 10
    ensures 0 <= x < 0x1000
  {
    regs[3 + 6 * i] % 0x10 * 0x100 + regs[4 + 6 * i]
  }

  function PointY(regs: seq<int>, i: nat): (y: int)
    requires IsRegisters(regs) && i < 10
    ensures 0 <= y < 0x1000
  {
    regs[5 + 6 * i] % 0x10 * 0x100 + regs[6 + 6 * i]
  }

  function PointEvent(regs: seq<int>, i: nat): Event
    requires IsRegisters(regs) && i < 10
  {
    var flag := regs[3 + 6 * i] / 0x40;
    if flag == 0 then PressDown else if flag == 1 then LiftUp else if flag == 2 then Contact else NoEvent
  }

  function PointWeight(regs: seq<int>, i: nat): int
    requires IsRegisters(regs) && i < 10
  {
    regs[7 + 6 * i]
  }

  /** The area mask keeps one bit of the misc register, so the area is 0 or 4. */
  function PointArea(regs: seq<int>, i: nat): int
    requires IsRegisters(regs) && i < 10
  {
    regs[8 + 6 * i] / 0x40 % 2 * 4
  }

  function GestureOf(id: int): Option<Gesture> {
    if id == 0x00 then Some(NoGesture)
    else if id == 0x10 then Some(MoveUp)
    else if id == 0x14 then Some(MoveRight)
    else if id == 0x18 then Some(MoveDown)
    else if id == 0x1C then Some(MoveLeft)
    else if id == 0x40 then Some(ZoomIn)
    else if id == 0x49 then Some(ZoomOut)
    else None
  }

  lemma RegisterTables(i: nat)
    requires i < 10
    ensures XH_REG[i] == 3 + 6 * i && XL_REG[i] == 4 + 6 * i && YH_REG[i] == 5 + 6 * i
    ensures YL_REG[i] == 6 + 6 * i && WEIGHT_REG[i] == 7 + 6 * i && MISC_REG[i] == 8 + 6 * i
  {
    if i == 0 {} else if i == 1 {} else if i == 2 {} else if i == 3 {} else if i == 4 {}
    else if i == 5 {} else if i == 6 {} else if i == 7 {} else if i == 8 {} else {}
  }

  /** The controller driver and its hidden handle. */
  class Controller {
    var currActiveTouchNb: nat
    var currActiveTouchIdx: nat

    constructor ()
      ensures currActiveTouchNb == 0 && currActiveTouchIdx == 0
    {
      currActiveTouchNb, currActiveTouchIdx := 0, 0;
    }

    method DetectTouch(regs: seq<int>) returns (n: nat)
      requires IsRegisters(regs)
      modifies this
      ensures n == PointCount(regs) == if regs[0x02] % 0x10 <= 5 then regs[0x02] % 0x10 else 0
      ensures currActiveTouchNb == n && currActiveTouchIdx == 0
    {
      n := regs[TD_STAT_REG] % 0x10;
      if n > MAX_TOUCH {
        n := 0;
      }
      currActiveTouchNb := n;
      currActiveTouchIdx := 0;
    }

    /** Reads the point the hidden index stands at and moves the index on; past the last
        point nothing is read and the results keep their values. */
    method GetXY(regs: seq<int>, x0: int, y0: int) returns (x: int, y: int)
      requires IsRegisters(regs) && currActiveTouchNb <= 10
      modifies this`currActiveTouchIdx
      ensures old(currActiveTouchIdx) < currActiveTouchNb ==>
        && x == PointX(regs, old(currActiveTouchIdx)) && y == PointY(regs, old(currActiveTouchIdx))
        && currActiveTouchIdx == old(currActiveTouchIdx) + 1
      ensures old(currActiveTouchIdx) >= currActiveTouchNb ==>
        x == x0 && y == y0 && currActiveTouchIdx == old(currActiveTouchIdx)
    {
      x, y := x0, y0;
      var i := currActiveTouchIdx;
      if i < currActiveTouchNb {
        RegisterTables(i);
        var coord := regs[XL_REG[i]];
        coord := coord + regs[XH_REG[i]] % 0x10 * 0x100;
        x := coord;
        coord := regs[YL_REG[i]];
        coord := coord + regs[YH_REG[i]] % 0x10 * 0x100;
        y := coord;
        currActiveTouchIdx := i + 1;
      }
    }

    /** Takes the point by an explicit index and leaves the hidden one alone; past the last point
        nothing is read and the results keep their values. */
    method GetTouchInfo(regs: seq<int>, i: nat, weight0: int, area0: int, flag0: int)
      returns (weight: int, area: int, flag: int)
      requires IsRegisters(regs) && currActiveTouchNb <= 10
      ensures i < currActiveTouchNb ==>
        && weight == PointWeight(regs, i) && area == PointArea(regs, i)
        && 0 <= flag < 4 && flag == regs[3 + 6 * i] / 0x40
      ensures i >= currActiveTouchNb ==> weight == weight0 && area == area0 && flag == flag0
    {
      weight, area, flag := weight0, area0, flag0;
      if i < currActiveTouchNb {
        RegisterTables(i);
        flag := regs[XH_REG[i]] / 0x40;
        weight := regs[WEIGHT_REG[i]];
        area := regs[MISC_REG[i]] / 0x40 % 2 * 4;
      }
    }
  }

  /** The entries of one touch point in the five arrays of the reported state. */
  datatype Slot = Slot(x: int, y: int, weight: int, area: int, event: Event)

  /** What a reported point looks like to the caller: x and y are exchanged. */
  function Reported(regs: seq<int>, i: nat): Slot
    requires IsRegisters(regs) && i < 10
  {
    Slot(PointY(regs, i), PointX(regs, i), PointWeight(regs, i), PointArea(regs, i), PointEvent(regs, i))
  }

  function Sample(regs: seq<int>, i: nat): Pt
    requires IsRegisters(regs) && i < 10
  {
    Pt(PointY(regs, i), PointX(regs, i))
  }

  function Distance(p: Pt, q: Pt): int {
    Abs(p.x - q.x) + Abs(p.y - q.y)
  }

  /** The first n slots filled with reported points, the others as they were. */
  function Filled(slots: seq<Slot>, regs: seq<int>, n: nat): (r: seq<Slot>)
    requires IsRegisters(regs) && |slots| == MAX_TOUCH && n <= MAX_TOUCH
    ensures |r| == MAX_TOUCH
  {
    seq(MAX_TOUCH, i requires 0 <= i < MAX_TOUCH => if i < n then Reported(regs, i) else slots[i])
  }

  /** The first n anchors after a sample each: an anchor jumps to a sample that is more than
      five steps away and otherwise stays. */
  function Moved(anchors: seq<Pt>, regs: seq<int>, n: nat): (r: seq<Pt>)
    requires IsRegisters(regs) && |anchors| == MAX_TOUCH && n <= MAX_TOUCH
    ensures |r| == MAX_TOUCH
  {
    seq(MAX_TOUCH, i requires 0 <= i < MAX_TOUCH =>
      if i < n && Distance(Sample(regs, i), anchors[i]) > ANCHOR_DISTANCE then Sample(regs, i) else anchors[i])
  }

  /** The latest sample of each slot, None before the first. */
  function Sampled(latest: seq<Option<Pt>>, regs: seq<int>, n: nat): (r: seq<Option<Pt>>)
    requires IsRegisters(regs) && |latest| == MAX_TOUCH && n <= MAX_TOUCH
    ensures |r| == MAX_TOUCH
  {
    seq(MAX_TOUCH, i requires 0 <= i < MAX_TOUCH => if i < n then Some(Sample(regs, i)) else latest[i])
  }

  predicate OnPanel(p: Pt) { 0 <= p.x < 0x1000 && 0 <= p.y < 0x1000 }

  /** Every anchor is on the panel and within five steps of the latest sample of its slot. */
  ghost predicate Anchored(anchors: seq<Pt>, latest: seq<Option<Pt>>) {
    && |anchors| == |latest| == MAX_TOUCH
    && forall i :: 0 <= i < MAX_TOUCH ==>
         OnPanel(anchors[i]) && (latest[i].Some? ==> Distance(latest[i].value, anchors[i]) <= ANCHOR_DISTANCE)
  }

  lemma StaysAnchored(anchors: seq<Pt>, latest: seq<Option<Pt>>, regs: seq<int>, n: nat)
    requires IsRegisters(regs) && n <= MAX_TOUCH && Anchored(anchors, latest)
    ensures Anchored(Moved(anchors, regs, n), Sampled(latest, regs, n))
  {
    forall i | 0 <= i < n
      ensures Distance(Sample(regs, i), Moved(anchors, regs, n)[i]) <= ANCHOR_DISTANCE
    {
    }
  }

  lemma NoneYet(slots: seq<Slot>, anchors: seq<Pt>, regs: seq<int>)
    requires IsRegisters(regs) && |slots| == |anchors| == MAX_TOUCH
    ensures Filled(slots, regs, 0) == slots && Moved(anchors, regs, 0) == anchors
    ensures PointCount(regs) <= MAX_TOUCH
  {
  }

  lemma OneMore(slots: seq<Slot>, anchors: seq<Pt>, regs: seq<int>, n: nat)
    requires IsRegisters(regs) && n < MAX_TOUCH && |slots| == |anchors| == MAX_TOUCH
    ensures Filled(slots, regs, n + 1) == Filled(slots, regs, n)[n := Reported(regs, n)]
    ensures Moved(anchors, regs, n + 1) ==
      if Distance(Sample(regs, n), anchors[n]) > ANCHOR_DISTANCE
      then Moved(anchors, regs, n)[n := Sample(regs, n)] else Moved(anchors, regs, n)
    ensures Moved(anchors, regs, n)[n] == anchors[n]
  {
  }

  /** What the caller gets. */
  class State {
    var touchDetected: nat
    var slots: seq<Slot>
    var gestureId: Gesture

    constructor ()
      ensures |slots| == MAX_TOUCH && touchDetected == 0
    {
      touchDetected := 0;
      slots := seq(MAX_TOUCH, _ => Slot(0, 0, 0, 0, NoEvent));
      gestureId := NoGesture;
    }
  }

  /** The board driver: the statics _x and _y of BSP_TS_GetState, and the controller. */
  class Screen {
    const controller: Controller
    var anchors: seq<Pt>
    /** The latest sample of each slot, over all calls so far. */
    ghost var latest: seq<Option<Pt>>

    ghost predicate Valid()
      reads this
    {
      Anchored(anchors, latest)
    }

    constructor ()
      ensures Valid() && fresh(controller)
      ensures forall i :: 0 <= i < MAX_TOUCH ==> latest[i] == None
    {
      controller := new Controller();
      anchors := seq(MAX_TOUCH, _ => Pt(0, 0));
      latest := seq(MAX_TOUCH, _ => None);
    }

    /** One call reports every touch point in its own slot, and leaves the other slots as
        they were; the hidden index ends at the touch count; each anchor moves to the new
        sample exactly when that is more than five steps away, so (by Valid, after any run of
        calls) it stays within five steps of the latest sample of its slot. */
    method GetState(regs: seq<int>, s: State) returns (status: Status)
      requires Valid() && |s.slots| == MAX_TOUCH && IsRegisters(regs)
      modifies this, controller, s
      ensures Valid() && |s.slots| == MAX_TOUCH
      ensures s.touchDetected == PointCount(regs)
      ensures s.slots == Filled(old(s.slots), regs, PointCount(regs))
      ensures anchors == Moved(old(anchors), regs, PointCount(regs))
      ensures latest == Sampled(old(latest), regs, PointCount(regs))
      ensures controller.currActiveTouchIdx == controller.currActiveTouchNb == PointCount(regs)
      ensures status == TsError <==> PointCount(regs) > 0 && GestureOf(regs[GEST_ID_REG]) == None
      ensures s.gestureId == if PointCount(regs) > 0 && GestureOf(regs[GEST_ID_REG]).Some?
                             then GestureOf(regs[GEST_ID_REG]).value else old(s.gestureId)
    {
      hide Filled, Moved, Sampled, GestureOf, PointX, PointY, PointWeight, PointArea, PointCount;
      NoneYet(s.slots, anchors, regs);
      status := TsOk;
      s.touchDetected := controller.DetectTouch(regs);
      var index := 0;
      while index < s.touchDetected
        invariant 0 <= index <= s.touchDetected == PointCount(regs)
        invariant controller.currActiveTouchIdx == index && controller.currActiveTouchNb == PointCount(regs)
        invariant s.slots == Filled(old(s.slots), regs, index)
        invariant anchors == Moved(old(anchors), regs, index)
        invariant latest == old(latest) && s.gestureId == old(s.gestureId)
      {
        OneMore(old(s.slots), old(anchors), regs, index);
        var bruteX, bruteY := controller.GetXY(regs, 0, 0);
        var y, x := bruteX, bruteY;
        MoveAnchor(index, x, y);
        var weight, area, flag := controller.GetTouchInfo(regs, index, 0, 0, 0);
        var event := if flag == 0 then PressDown else if flag == 1 then LiftUp
                     else if flag == 2 then Contact else NoEvent;
        s.slots := s.slots[index := Slot(x, y, weight, area, event)];
        index := index + 1;
      }
      StaysAnchored(old(anchors), old(latest), regs, index);
      latest := Sampled(latest, regs, index);
      if s.touchDetected > 0 {
        var g := GestureOf(regs[GEST_ID_REG]);
        if g.Some? {
          s.gestureId := g.value;
        } else {
          status := TsError;
        }
      }
    }

    /** The part of the loop that keeps the anchor of one slot near its sample. */
    method MoveAnchor(index: nat, x: int, y: int)
      requires |anchors| == MAX_TOUCH && index < MAX_TOUCH && OnPanel(anchors[index]) && OnPanel(Pt(x, y))
      modifies this`anchors
      ensures anchors == if Distance(Pt(x, y), old(anchors)[index]) > ANCHOR_DISTANCE
                         then old(anchors)[index := Pt(x, y)] else old(anchors)
      ensures Distance(Pt(x, y), anchors[index]) <= ANCHOR_DISTANCE
    {
      var a := anchors[index];
      var xDiff := ToUint16(if x > a.x then x - a.x else a.x - x);
      var yDiff := ToUint16(if y > a.y then y - a.y else a.y - y);
      if xDiff + yDiff > ANCHOR_DISTANCE {
        anchors := anchors[index := Pt(x, y)];
      }
    }
  }

  // ---- from the fingers on the panel to the reported state ----

  /** What the controller senses of one touch: 12-bit coordinates, the event flag, the number of the
      touch, and two bytes of weight and misc data. */
  datatype Finger = Finger(x: int, y: int, flag: int, id: int, weight: int, misc: int)

  predicate ValidFinger(f: Finger) {
    && 0 <= f.x < 0x1000 && 0 <= f.y < 0x1000 && 0 <= f.flag < 4 && 0 <= f.id < 0x10
    && 0 <= f.weight < 0x100 && 0 <= f.misc < 0x100
  }

  predicate ValidFingers(fs: seq<Finger>) {
    |fs| <= 5 && forall i :: 0 <= i < |fs| ==> ValidFinger(fs[i])
  }

  /** The six registers of a finger, in the order of their addresses: event flag above the high
      bits of x, low bits of x, touch number above the high bits of y, low bits of y, weight, misc. */
  function Fields(f: Finger): (six: seq<int>)
    ensures |six| == 6
  {
    [f.flag * 0x40 + f.x / 0x100, f.x % 0x100, f.id * 0x10 + f.y / 0x100, f.y % 0x100, f.weight, f.misc]
  }

  /** The registers hold these fingers: their number in register 2, their data from register 3 on. */
  ghost predicate Holds(regs: seq<int>, fs: seq<Finger>) {
    && IsRegisters(regs) && ValidFingers(fs) && regs[0x02] % 0x10 == |fs|
    && forall i :: 0 <= i < |fs| ==> regs[0x03 + 6 * i..0x03 + 6 * i + 6] == Fields(fs[i])
  }

  /** The register file of a list of fingers and a gesture code. */
  function RegisterFile(fs: seq<Finger>, gesture: int): seq<int> {
    seq(0x100, r requires 0 <= r < 0x100 =>
      if r == 0x01 then gesture else if r == 0x02 then |fs|
      else if 0x03 <= r < 0x03 + 6 * |fs| then Fields(fs[(r - 0x03) / 6])[(r - 0x03) % 6] else 0)
  }

  lemma FieldIsByte(f: Finger, k: nat)
    requires ValidFinger(f) && k < 6
    ensures 0 <= Fields(f)[k] < 0x100
  {
  }

  lemma FileIsRegisters(fs: seq<Finger>, gesture: int)
    requires ValidFingers(fs) && 0 <= gesture < 0x100
    ensures IsRegisters(RegisterFile(fs, gesture))
  {
    hide Fields, ValidFinger;
    forall r | 0 <= r < 0x100
      ensures 0 <= RegisterFile(fs, gesture)[r] < 0x100
    {
      if 0x03 <= r < 0x03 + 6 * |fs| {
        FieldIsByte(fs[(r - 0x03) / 6], (r - 0x03) % 6);
      }
    }
  }

  lemma FileField(fs: seq<Finger>, gesture: int, i: nat, k: nat)
    requires ValidFingers(fs) && i < |fs| && k < 6
    ensures RegisterFile(fs, gesture)[0x03 + 6 * i + k] == Fields(fs[i])[k]
  {
    hide Fields, ValidFinger;
    QuotientIsUnique(6 * i + k, 6, i, k);
    assert (6 * i + k) % 6 == k;
  }

  lemma FileHolds(fs: seq<Finger>, gesture: int)
    requires ValidFingers(fs) && 0 <= gesture < 0x100
    ensures Holds(RegisterFile(fs, gesture), fs) && RegisterFile(fs, gesture)[0x01] == gesture
  {
    var regs := RegisterFile(fs, gesture);
    FileIsRegisters(fs, gesture);
    assert regs[0x02] == |fs| && regs[0x01] == gesture;
    hide RegisterFile, Fields, ValidFinger;
    forall i | 0 <= i < |fs|
      ensures regs[0x03 + 6 * i..0x03 + 6 * i + 6] == Fields(fs[i])
    {
      forall k | 0 <= k < 6
        ensures regs[0x03 + 6 * i + k] == Fields(fs[i])[k]
      {
        FileField(fs, gesture, i, k);
      }
      Stretch(regs, 0x03 + 6 * i, Fields(fs[i]));
    }
  }

  lemma Stretch(regs: seq<int>, at: nat, s: seq<int>)
    requires at + |s| <= |regs| && forall k :: 0 <= k < |s| ==> regs[at + k] == s[k]
    ensures regs[at..at + |s|] == s
  {
  }

  /** Any finger the registers hold is reported with x and y exchanged, its event flag decoded, and
      bit 6 of the misc byte as an area of 4. */
  lemma FingerIsReported(regs: seq<int>, fs: seq<Finger>, i: nat)
    requires Holds(regs, fs) && i < |fs|
    ensures PointCount(regs) == |fs|
    ensures var f := fs[i];
      && Reported(regs, i) == Slot(f.y, f.x, f.weight, if f.misc % 0x80 >= 0x40 then 4 else 0,
                                   [PressDown, LiftUp, Contact, NoEvent][f.flag])
      && Sample(regs, i) == Pt(f.y, f.x)
  {
    var at := 3 + 6 * i;
    assert ValidFinger(fs[i]) && regs[at..at + 6] == Fields(fs[i]);
    SixFields(regs, at, fs[i]);
    DecodeFields(fs[i]);
    hide Holds, ValidFingers, Fields;
  }

  lemma SixFields(regs: seq<int>, at: nat, f: Finger)
    requires at + 6 <= |regs| && regs[at..at + 6] == Fields(f)
    ensures regs[at] == f.flag * 0x40 + f.x / 0x100 && regs[at + 1] == f.x % 0x100
    ensures regs[at + 2] == f.id * 0x10 + f.y / 0x100 && regs[at + 3] == f.y % 0x100
    ensures regs[at + 4] == f.weight && regs[at + 5] == f.misc
  {
    var six := regs[at..at + 6];
    assert regs[at] == six[0] && regs[at + 1] == six[1] && regs[at + 2] == six[2];
    assert regs[at + 3] == six[3] && regs[at + 4] == six[4] && regs[at + 5] == six[5];
  }

  lemma DecodeFields(f: Finger)
    requires ValidFinger(f)
    ensures (f.flag * 0x40 + f.x / 0x100) / 0x40 == f.flag
    ensures (f.flag * 0x40 + f.x / 0x100) % 0x10 * 0x100 + f.x % 0x100 == f.x
    ensures (f.id * 0x10 + f.y / 0x100) % 0x10 * 0x100 + f.y % 0x100 == f.y
    ensures f.misc / 0x40 % 2 * 4 == if f.misc % 0x80 >= 0x40 then 4 else 0
  {
  }

  /** BSP_TS_GetState seen from the panel: each finger in its own slot, the other slots as they
      were, the gesture by its code, and each anchor moved to a finger more than five steps away. */
  method ReportFingers(screen: Screen, regs: seq<int>, fs: seq<Finger>, s: State) returns (status: Status)
    requires screen.Valid() && |s.slots| == 5 && Holds(regs, fs)
    modifies screen, screen.controller, s
    ensures screen.Valid() && |s.slots| == 5 && s.touchDetected == |fs|
    ensures forall i :: 0 <= i < |fs| ==>
      s.slots[i] == Slot(fs[i].y, fs[i].x, fs[i].weight, if fs[i].misc % 0x80 >= 0x40 then 4 else 0,
                         [PressDown, LiftUp, Contact, NoEvent][fs[i].flag])
    ensures forall i :: |fs| <= i < 5 ==> s.slots[i] == old(s.slots)[i] && screen.anchors[i] == old(screen.anchors)[i]
    ensures forall i :: 0 <= i < |fs| ==>
      var a := old(screen.anchors)[i];
      screen.anchors[i] == if Abs(fs[i].y - a.x) + Abs(fs[i].x - a.y) > 5 then Pt(fs[i].y, fs[i].x) else a
    ensures fs == [] ==> status == TsOk && s.gestureId == old(s.gestureId)
    ensures fs != [] ==> (status == TsOk <==> regs[0x01] in {0x00, 0x10, 0x14, 0x18, 0x1C, 0x40, 0x49})
    ensures fs != [] && status == TsOk ==>
      && (s.gestureId == NoGesture <==> regs[0x01] == 0x00) && (s.gestureId == MoveUp <==> regs[0x01] == 0x10)
      && (s.gestureId == MoveRight <==> regs[0x01] == 0x14) && (s.gestureId == MoveDown <==> regs[0x01] == 0x18)
      && (s.gestureId == MoveLeft <==> regs[0x01] == 0x1C) && (s.gestureId == ZoomIn <==> regs[0x01] == 0x40)
      && (s.gestureId == ZoomOut <==> regs[0x01] == 0x49)
    ensures status == TsError ==> s.gestureId == old(s.gestureId)
  {
    forall i | 0 <= i < |fs|
      ensures Reported(regs, i) == Slot(fs[i].y, fs[i].x, fs[i].weight, if fs[i].misc % 0x80 >= 0x40 then 4 else 0,
                                        [PressDown, LiftUp, Contact, NoEvent][fs[i].flag])
      ensures Sample(regs, i) == Pt(fs[i].y, fs[i].x)
    {
      FingerIsReported(regs, fs, i);
    }
    hide Reported, Sample;
    status := screen.GetState(regs, s);
  }
}
