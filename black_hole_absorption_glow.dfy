/// BlackHoleAbsorptionGlow (Assets/BlackHoleAbsorptionGlow.cs): a screen
/// flash whose alpha jumps up when the black hole's collision counter grows
/// and fades out over time. The simulation's body array and Time.deltaTime
/// are parameters of Update.
module AbsorptionGlow {
  import opened UnityMath
  import opened Bodies

  /// The black hole's slot in the major-body array.
  const BlackHoleIndex: nat := 11

  datatype Color = Color(r: real, g: real, b: real, a: real)

  /// The two counters Update changes.
  datatype GlowState = GlowState(lastCollisionCount: real, currentAlpha: real)

  /// Raise alpha by newHits × intensity, capped at `cap` (Mathf.Min).
  function Brighten(alpha: real, newHits: real, intensity: real, cap: real): real {
    MinR(alpha + newHits * intensity, cap)
  }

  /// Fade alpha by deltaTime / flashDuration, never below 0 (Mathf.Max).
  function Fade(alpha: real, deltaTime: real, flashDuration: real): real
    requires flashDuration != 0.0
  {
    MaxR(0.0, alpha - deltaTime / flashDuration)
  }

  /// Update's guard: a simulation with a body array that has a black-hole
  /// slot, and an image to colour.
  predicate Active(bodies: Option<seq<Body<real>>>, hasImage: bool) {
    bodies.Some? && |bodies.value| > BlackHoleIndex && hasImage
  }

  /// One Update on the counters.
  function GlowStep(s: GlowState, bodies: Option<seq<Body<real>>>, hasImage: bool, deltaTime: real,
                    flashColor: Color, flashDuration: real, flashIntensityPerBody: real): GlowState
    requires flashDuration != 0.0
  {
    if !Active(bodies, hasImage) then s
    else
      var currentCount := bodies.value[BlackHoleIndex].collided;
      var newHits := currentCount - s.lastCollisionCount;
      var alpha := if newHits > 0.0 then Brighten(s.currentAlpha, newHits, flashIntensityPerBody, flashColor.a)
                   else s.currentAlpha;
      GlowState(currentCount, Fade(alpha, deltaTime, flashDuration))
  }

  /// Without the guard nothing changes; with it the last count becomes the
  /// black hole's counter, and alpha only rises when that counter grew: with
  /// no new hits the step is a pure fade, and alpha never ends above both
  /// its old value and the flash alpha (or 0).
  lemma GlowStepEffect(s: GlowState, bodies: Option<seq<Body<real>>>, hasImage: bool, deltaTime: real,
                       flashColor: Color, flashDuration: real, flashIntensityPerBody: real)
    requires flashDuration != 0.0
    ensures var r := GlowStep(s, bodies, hasImage, deltaTime, flashColor, flashDuration, flashIntensityPerBody);
      && (!Active(bodies, hasImage) ==> r == s)
      && (Active(bodies, hasImage) ==> r.lastCollisionCount == bodies.value[BlackHoleIndex].collided)
      && (Active(bodies, hasImage) && bodies.value[BlackHoleIndex].collided <= s.lastCollisionCount ==>
            r.currentAlpha == Fade(s.currentAlpha, deltaTime, flashDuration))
      && (Active(bodies, hasImage) && deltaTime >= 0.0 && flashDuration > 0.0 ==>
            r.currentAlpha <= MaxR(0.0, MaxR(s.currentAlpha, flashColor.a)))
  {
    if Active(bodies, hasImage) {
      var currentCount := bodies.value[BlackHoleIndex].collided;
      var newHits := currentCount - s.lastCollisionCount;
      FadeNotAbove(if newHits > 0.0 then Brighten(s.currentAlpha, newHits, flashIntensityPerBody, flashColor.a)
                   else s.currentAlpha, deltaTime, flashDuration);
    }
  }

  /// Fading with non-negative time and positive duration never raises a
  /// non-negative alpha, and keeps every alpha at or above 0.
  lemma FadeNotAbove(alpha: real, deltaTime: real, flashDuration: real)
    requires flashDuration != 0.0
    ensures Fade(alpha, deltaTime, flashDuration) >= 0.0
    ensures deltaTime >= 0.0 && flashDuration > 0.0 && alpha >= 0.0 ==> Fade(alpha, deltaTime, flashDuration) <= alpha
  {
    if deltaTime >= 0.0 && flashDuration > 0.0 {
      assert deltaTime / flashDuration >= 0.0;
    }
  }

  /// The alpha range [0, flashColor.a] is kept by every Update, given
  /// non-negative frame time and a positive flash duration.
  lemma AlphaStaysInRange(s: GlowState, bodies: Option<seq<Body<real>>>, hasImage: bool, deltaTime: real,
                          flashColor: Color, flashDuration: real, flashIntensityPerBody: real)
    requires deltaTime >= 0.0 && flashDuration > 0.0
    requires 0.0 <= s.currentAlpha <= flashColor.a
    ensures var r := GlowStep(s, bodies, hasImage, deltaTime, flashColor, flashDuration, flashIntensityPerBody);
      0.0 <= r.currentAlpha <= flashColor.a
  {
    if Active(bodies, hasImage) {
      var currentCount := bodies.value[BlackHoleIndex].collided;
      var newHits := currentCount - s.lastCollisionCount;
      var alpha := if newHits > 0.0 then Brighten(s.currentAlpha, newHits, flashIntensityPerBody, flashColor.a)
                   else s.currentAlpha;
      if alpha >= 0.0 {
        FadeNotAbove(alpha, deltaTime, flashDuration);
      } else {
        assert Fade(alpha, deltaTime, flashDuration) == 0.0;
      }
    }
  }

  class BlackHoleAbsorptionGlow {
    var flashColor: Color
    var flashDuration: real
    var flashIntensityPerBody: real
    var lastCollisionCount: real
    var currentAlpha: real
    /// The full-screen image, if one is attached, and its colour.
    var hasImage: bool
    var imageColor: Color

    function State(): GlowState
      reads this
    {
      GlowState(lastCollisionCount, currentAlpha)
    }

    /// The inspector defaults: an orange flash of alpha 0.4 lasting 0.15 s,
    /// 0.1 per body; both counters start at 0.
    constructor (hasImage: bool)
      ensures flashColor == Color(1.0, 0.6, 0.1, 0.4) && flashDuration == 0.15 && flashIntensityPerBody == 0.1
      ensures lastCollisionCount == 0.0 && currentAlpha == 0.0 && this.hasImage == hasImage
    {
      flashColor := Color(1.0, 0.6, 0.1, 0.4);
      flashDuration := 0.15;
      flashIntensityPerBody := 0.1;
      lastCollisionCount := 0.0;
      currentAlpha := 0.0;
      this.hasImage := hasImage;
      imageColor := Color(0.0, 0.0, 0.0, 0.0);
    }

    /// Start: an attached image is set to the flash colour, transparent.
    method Start()
      modifies this`imageColor
      ensures hasImage ==> imageColor == flashColor.(a := 0.0)
      ensures !hasImage ==> imageColor == old(imageColor)
    {
      if hasImage {
        imageColor := Color(flashColor.r, flashColor.g, flashColor.b, 0.0);
      }
    }

    /// Update: the counters take GlowStep, and an active Update paints the
    /// image in the flash colour with the new alpha.
    method Update(bodies: Option<seq<Body<real>>>, deltaTime: real)
      requires flashDuration != 0.0
      modifies this`lastCollisionCount, this`currentAlpha, this`imageColor
      ensures State() == GlowStep(old(State()), bodies, hasImage, deltaTime, flashColor, flashDuration, flashIntensityPerBody)
      ensures Active(bodies, hasImage) ==> imageColor == flashColor.(a := currentAlpha)
      ensures !Active(bodies, hasImage) ==> imageColor == old(imageColor)
    {
      if bodies.None? || |bodies.value| <= BlackHoleIndex || !hasImage {
        return;
      }
      var currentCount := bodies.value[BlackHoleIndex].collided;
      var newHits := currentCount - lastCollisionCount;
      if newHits > 0.0 {
        currentAlpha := Brighten(currentAlpha, newHits, flashIntensityPerBody, flashColor.a);
      }
      lastCollisionCount := currentCount;
      currentAlpha := Fade(currentAlpha, deltaTime, flashDuration);
      imageColor := Color(flashColor.r, flashColor.g, flashColor.b, currentAlpha);
    }
  }
}
