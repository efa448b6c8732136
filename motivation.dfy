/** The motivational message of src/components/MotivationalMessage.tsx: a
    percentage selects one of four message tiers and a colour palette, and
    nothing is shown for a percentage strictly between 0 and 50. */
module Motivation {
  import opened Wrappers

  /** The four keys of the `messages` table: 100, 80, 50 and 0. */
  datatype Tier = Perfect | Great | Good | Start

  function Key(t: Tier): int {
    match t
    case Perfect => 100
    case Great => 80
    case Good => 50
    case Start => 0
  }

  /** The `messages` table (MotivationalMessage.tsx:7-28): three messages
      per tier. */
  function Messages(t: Tier): (r: seq<string>)
    ensures |r| == 3
  {
    match t
    case Perfect => [
      "Outstanding! You completed all your habits today!",
      "Perfect day! Keep up the amazing work!",
      "All done! Your dedication is inspiring!"]
    case Great => [
      "Great progress! You are almost there!",
      "Wonderful effort today!",
      "You are doing amazing!"]
    case Good => [
      "Good start! Keep going!",
      "You are making progress!",
      "Every habit counts!"]
    case Start => [
      "New day, new opportunities!",
      "Start with one small habit!",
      "You can do this!"]
  }

  /** The if/else chain of MotivationalMessage.tsx:31-39: the 100 tier
      exactly at 100, the 0 tier exactly below 50, and never a tier whose
      key is above a non-negative percentage. */
  function SelectTier(p: int): (t: Tier)
    ensures t == Perfect <==> p == 100
    ensures t == Start <==> p < 50
    ensures p >= 0 ==> Key(t) <= p
  {
    if p == 100 then Perfect
    else if p >= 80 then Great
    else if p >= 50 then Good
    else Start
  }

  /** `Math.floor(Math.random() * len)` with the random number passed in as
      pick, 0 <= pick < 1: always an index of the array. */
  function PickIndex(pick: real, len: nat): (i: int)
    requires 0.0 <= pick < 1.0
    ensures len > 0 ==> 0 <= i < len
  {
    var x := pick * len as real;
    assert 0.0 <= x;
    assert len > 0 ==> x < len as real;
    x.Floor
  }

  /** The three colour classes of the rendered box (container, icon, text). */
  datatype Palette = Palette(container: string, icon: string, text: string)

  const Emerald := Palette("bg-emerald-50 border-emerald-200", "text-emerald-600", "text-emerald-700")
  const Blue := Palette("bg-blue-50 border-blue-200", "text-blue-600", "text-blue-700")
  const Gray := Palette("bg-gray-50 border-gray-200", "text-gray-600", "text-gray-700")

  /** The three conditional class expressions of MotivationalMessage.tsx:49-75,
      which share one threshold chain. */
  function PaletteFor(p: int): (pal: Palette)
    ensures pal == Emerald <==> p == 100
    ensures pal == Blue <==> p != 100 && p >= 80
    ensures pal == Gray <==> p < 80
  {
    if p == 100 then Emerald
    else if p >= 80 then Blue
    else Gray
  }

  datatype View = View(message: string, palette: Palette)

  /** MotivationalMessage(p): null for 0 < p < 50, otherwise the chosen
      message in its palette (MotivationalMessage.tsx:30-79). */
  function Render(p: int, pick: real): (v: Option<View>)
    requires 0.0 <= pick < 1.0
    ensures v.None? <==> 0 < p < 50
    ensures v.Some? ==> v.value.message in Messages(SelectTier(p)) && v.value.palette == PaletteFor(p)
  {
    var messageArray := Messages(SelectTier(p));
    var message := messageArray[PickIndex(pick, |messageArray|)];
    if p < 50 && p > 0 then None
    else Some(View(message, PaletteFor(p)))
  }

  // ---------------------------------------------------------------- properties

  /** For a percentage in [0, 100] the selected tier is the one with the
      largest key not above it. */
  lemma TierIsLargestKeyNotAbove(p: int)
    requires 0 <= p <= 100
    ensures Key(SelectTier(p)) <= p
    ensures forall u :: Key(u) <= p ==> Key(u) <= Key(SelectTier(p))
  {
  }

  /** A larger percentage never selects a lower tier (within [0, 100]). */
  lemma TierMonotone(p: int, q: int)
    requires 0 <= p <= q <= 100
    ensures Key(SelectTier(p)) <= Key(SelectTier(q))
  {
    TierIsLargestKeyNotAbove(p);
    TierIsLargestKeyNotAbove(q);
  }

  /** Nothing is rendered exactly when 0 < p < 50; otherwise the message is
      one of the selected tier's and the palette is emerald at 100, blue at
      80 and above, gray below. */
  lemma RenderMeaning(p: int, pick: real)
    requires 0.0 <= pick < 1.0
    ensures Render(p, pick).None? <==> 0 < p < 50
    ensures Render(p, pick).Some? ==>
      && Render(p, pick).value.message in Messages(SelectTier(p))
      && (Render(p, pick).value.palette == Emerald <==> p == 100)
      && (Render(p, pick).value.palette == Blue <==> p != 100 && p >= 80)
      && (Render(p, pick).value.palette == Gray <==> p < 80)
  {
  }

  /** In [0, 100], the 0 tier is shown only for exactly 0, and each shown
      palette goes with its own tiers: emerald with the 100 tier, blue with
      the 80 tier, gray with the 50 and 0 tiers. */
  lemma ShownTierAndPalette(p: int, pick: real)
    requires 0 <= p <= 100 && 0.0 <= pick < 1.0
    ensures Render(p, pick).Some? && SelectTier(p) == Start ==> p == 0
    ensures Render(p, pick).Some? ==>
      (Render(p, pick).value.palette == Emerald <==> SelectTier(p) == Perfect)
      && (Render(p, pick).value.palette == Blue <==> SelectTier(p) == Great)
      && (Render(p, pick).value.palette == Gray <==> SelectTier(p) in {Good, Start})
  {
  }
}
