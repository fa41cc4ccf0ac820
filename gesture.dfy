/** The drag-end classifier of the pattern card (`handleDragEnd`). */
module Gesture {
  import opened Responses

  /** `SWIPE_THRESHOLD`, in device-independent pixels. */
  const SwipeThreshold: real := 100.0

  function Abs(x: real): real
  {
    if x < 0.0 then -x else x
  }

  /** A drag ending at horizontal offset `offsetX` swipes when the offset's
      magnitude strictly exceeds the threshold, towards the offset's sign;
      an offset of exactly plus or minus the threshold does nothing. */
  function Classify(offsetX: real): (d: Option<Direction>)
    ensures d == Some(Right) <==> offsetX > SwipeThreshold
    ensures d == Some(Left) <==> offsetX < -SwipeThreshold
    ensures d == None <==> -SwipeThreshold <= offsetX <= SwipeThreshold
  {
    if Abs(offsetX) > SwipeThreshold then
      Some(if offsetX > 0.0 then Right else Left)
    else
      None
  }
}
