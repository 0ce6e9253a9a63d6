/// CameraManager (Assets/CameraManager.cs): an orbit camera whose yaw `x`,
/// pitch `y` and distance follow the mouse, the arrow keys and the scroll
/// wheel. The input axes, the mouse button and Time.deltaTime are
/// parameters of LateUpdate.
module Camera {
  import opened UnityMath

  /// ClampAngle(angle, min, max): one turn is added below −360 or removed
  /// above 360, then the angle is clamped.
  function ClampAngle(angle: real, min: real, max: real): real {
    var raised := if angle < -360.0 then angle + 360.0 else angle;
    var lowered := if raised > 360.0 then raised - 360.0 else raised;
    Clamp(lowered, min, max)
  }

  /// The clamp lands in [min, max] whenever min <= max, after shifting the
  /// angle by at most one turn; an angle already in a range within
  /// [−360, 360] comes back unchanged.
  lemma ClampAngleRange(angle: real, min: real, max: real)
    ensures min <= max ==> min <= ClampAngle(angle, min, max) <= max
    ensures ClampAngle(angle, min, max) == Clamp(angle + 360.0, min, max)
         || ClampAngle(angle, min, max) == Clamp(angle, min, max)
         || ClampAngle(angle, min, max) == Clamp(angle - 360.0, min, max)
    ensures -360.0 <= angle <= 360.0 ==> ClampAngle(angle, min, max) == Clamp(angle, min, max)
    ensures -360.0 <= min <= angle <= max <= 360.0 ==> ClampAngle(angle, min, max) == angle
  {
  }

  /// One input-driven turn: angle + axis × speed × deltaTime.
  function Turn(angle: real, axis: real, speed: real, deltaTime: real): real {
    angle + axis * speed * deltaTime
  }

  /// One scroll-wheel zoom step before clamping: distance − scroll × distance.
  function Zoom(distance: real, scroll: real): real {
    distance - scroll * distance
  }

  /// What LateUpdate reads: the left mouse button, the four axes, the
  /// scroll wheel and the frame time.
  datatype Input = Input(mouseHeld: bool, mouseX: real, mouseY: real, horizontal: real, vertical: real,
                         scroll: real, deltaTime: real)

  /// The inspector settings.
  datatype Settings = Settings(xSpeed: real, ySpeed: real, yMinLimit: real, yMaxLimit: real,
                               distanceMin: real, distanceMax: real)

  /// Yaw, pitch and distance.
  datatype View = View(x: real, y: real, distance: real)

  /// The pitch after the mouse drag, as written: turned and clamped.
  function MousePitch(v: View, inp: Input, st: Settings): real {
    if inp.mouseHeld then ClampAngle(Turn(v.y, -inp.mouseY, st.ySpeed, inp.deltaTime), st.yMinLimit, st.yMaxLimit)
    else v.y
  }

  /// LateUpdate on yaw, pitch and distance: the mouse drag, then the arrow
  /// keys beyond a dead zone of 0.01, then the scroll wheel beyond 0.001.
  function LateUpdateOn(v: View, inp: Input, st: Settings): View {
    var x1 := if inp.mouseHeld then Turn(v.x, inp.mouseX, st.xSpeed, inp.deltaTime) else v.x;
    var y1 := MousePitch(v, inp, st);
    var x2 := if Abs(inp.horizontal) > 0.01 then Turn(x1, inp.horizontal, st.xSpeed, inp.deltaTime) else x1;
    var y2 := if Abs(inp.vertical) > 0.01
              then ClampAngle(Turn(y1, -inp.vertical, st.ySpeed, inp.deltaTime), st.yMinLimit, st.yMaxLimit)
              else y1;
    var d := if Abs(inp.scroll) > 0.001 then Clamp(Zoom(v.distance, inp.scroll), st.distanceMin, st.distanceMax)
             else v.distance;
    View(x2, y2, d)
  }

  /// Pitch is clamped after every change, so a frame that turns it leaves
  /// it within the limits; yaw is never clamped, only turned; the distance
  /// changes only with a scroll beyond the dead zone, and then lands within
  /// its limits; with the mouse up and both keys in the dead zone, yaw and
  /// pitch stay put.
  lemma LateUpdateClamps(v: View, inp: Input, st: Settings)
    ensures var r := LateUpdateOn(v, inp, st);
      && (st.yMinLimit <= st.yMaxLimit && (inp.mouseHeld || Abs(inp.vertical) > 0.01) ==>
            st.yMinLimit <= r.y <= st.yMaxLimit)
      && (!inp.mouseHeld && Abs(inp.vertical) <= 0.01 ==> r.y == v.y)
      && r.x == Turn(Turn(v.x, if inp.mouseHeld then inp.mouseX else 0.0, st.xSpeed, inp.deltaTime),
                     if Abs(inp.horizontal) > 0.01 then inp.horizontal else 0.0, st.xSpeed, inp.deltaTime)
      && (!inp.mouseHeld && Abs(inp.horizontal) <= 0.01 ==> r.x == v.x)
      && (Abs(inp.scroll) <= 0.001 ==> r.distance == v.distance)
      && (Abs(inp.scroll) > 0.001 && st.distanceMin <= st.distanceMax ==>
            st.distanceMin <= r.distance <= st.distanceMax)
  {
    ClampAngleRange(Turn(v.y, -inp.mouseY, st.ySpeed, inp.deltaTime), st.yMinLimit, st.yMaxLimit);
    ClampAngleRange(Turn(MousePitch(v, inp, st), -inp.vertical, st.ySpeed, inp.deltaTime), st.yMinLimit, st.yMaxLimit);
    TurnByZero(v.x, st.xSpeed, inp.deltaTime);
    TurnByZero(if inp.mouseHeld then Turn(v.x, inp.mouseX, st.xSpeed, inp.deltaTime) else v.x, st.xSpeed, inp.deltaTime);
  }

  /// A zero axis does not turn.
  lemma TurnByZero(angle: real, speed: real, deltaTime: real)
    ensures Turn(angle, 0.0, speed, deltaTime) == angle
  {
  }

  class CameraManager {
    var distance: real
    var xSpeed: real
    var ySpeed: real
    var yMinLimit: real
    var yMaxLimit: real
    var distanceMin: real
    var distanceMax: real
    var x: real
    var y: real

    function Config(): Settings
      reads this
    {
      Settings(xSpeed, ySpeed, yMinLimit, yMaxLimit, distanceMin, distanceMax)
    }

    function Current(): View
      reads this
    {
      View(x, y, distance)
    }

    /// The inspector defaults: distance 50, speeds 500, pitch limits 10 to
    /// 80, zoom limits 10 to 100; yaw and pitch start at 0.
    constructor ()
      ensures Current() == View(0.0, 0.0, 50.0)
      ensures Config() == Settings(500.0, 500.0, 10.0, 80.0, 10.0, 100.0)
    {
      distance := 50.0;
      xSpeed := 500.0;
      ySpeed := 500.0;
      yMinLimit := 10.0;
      yMaxLimit := 80.0;
      distanceMin := 10.0;
      distanceMax := 100.0;
      x := 0.0;
      y := 0.0;
    }

    /// Start: yaw and pitch from the transform's Euler angles (y and x).
    method Start(eulerX: real, eulerY: real)
      modifies this`x, this`y
      ensures x == eulerY && y == eulerX
    {
      x := eulerY;
      y := eulerX;
    }

    /// LateUpdate on the camera's angles and distance; placing the
    /// transform is not modelled.
    method LateUpdate(inp: Input)
      modifies this`x, this`y, this`distance
      ensures Current() == LateUpdateOn(old(Current()), inp, Config())
    {
      if inp.mouseHeld {
        x := Turn(x, inp.mouseX, xSpeed, inp.deltaTime);
        y := Turn(y, -inp.mouseY, ySpeed, inp.deltaTime);
        y := ClampAngle(y, yMinLimit, yMaxLimit);
      }
      var horizontal := inp.horizontal;
      var vertical := inp.vertical;
      if Abs(horizontal) > 0.01 {
        x := Turn(x, horizontal, xSpeed, inp.deltaTime);
      }
      if Abs(vertical) > 0.01 {
        y := Turn(y, -vertical, ySpeed, inp.deltaTime);
        y := ClampAngle(y, yMinLimit, yMaxLimit);
      }
      var scroll := inp.scroll;
      if Abs(scroll) > 0.001 {
        distance := Clamp(Zoom(distance, scroll), distanceMin, distanceMax);
      }
    }
  }
}
