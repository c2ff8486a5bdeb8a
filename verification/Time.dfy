/** Timestamps of 53 bits, and the validity windows they bound. */
module Time {
  import opened Wrappers

  const MAX: int := 0x1f_ffff_ffff_ffff

  type Timestamp = t: int | -0x1f_ffff_ffff_ffff <= t <= 0x1f_ffff_ffff_ffff
  type Seconds = s: int | 0 <= s < 0x1_0000_0000

  datatype Expiry = At(at: Timestamp) | Never

  datatype TimeError = NotYetValid(notBefore: Timestamp) | Expired(at: Timestamp)

  function SaturatingI64(n: int): I64 {
    if n < -0x8000_0000_0000_0000 then -0x8000_0000_0000_0000
    else if n >= 0x8000_0000_0000_0000 then 0x7fff_ffff_ffff_ffff else n
  }

  function PlusSeconds(t: Timestamp, s: Seconds): Timestamp {
    var sum := SaturatingI64(t + s);
    if sum < MAX then sum else MAX
  }

  function MinusSeconds(t: Timestamp, s: Seconds): Timestamp {
    var difference := SaturatingI64(t - s);
    if difference > -MAX then difference else -MAX
  }

  /** Whether `now` is past the expiry, allowing `skew` seconds. */
  predicate IsPast(expiry: Expiry, now: Timestamp, skew: Seconds) {
    match expiry
    case At(at) => now > PlusSeconds(at, skew)
    case Never => false
  }

  function CheckWindow(notBefore: Option<Timestamp>, expiry: Expiry, now: Timestamp, skew: Seconds)
    : Result<(), TimeError>
  {
    if notBefore.Some? && now < MinusSeconds(notBefore.value, skew) then Err(NotYetValid(notBefore.value))
    else if IsPast(expiry, now, skew) then Err(Expired(expiry.at))
    else Ok(())
  }

  /** Saturation never shows: the window is `[notBefore - skew, expiry + skew]` over all integers. */
  lemma WindowIsUnsaturated(notBefore: Option<Timestamp>, expiry: Expiry, now: Timestamp, skew: Seconds)
    ensures IsPast(expiry, now, skew) <==> expiry.At? && now > expiry.at + skew
    ensures CheckWindow(notBefore, expiry, now, skew).Ok?
       <==> (notBefore.Some? ==> notBefore.value - skew <= now) && (expiry.At? ==> now <= expiry.at + skew)
  {
  }

  /** Which bound is named: the lower one if it fails, and only then the upper one. */
  lemma WindowErrors(notBefore: Option<Timestamp>, expiry: Expiry, now: Timestamp, skew: Seconds, t: Timestamp)
    ensures CheckWindow(notBefore, expiry, now, skew) == Err(NotYetValid(t))
       <==> notBefore == Some(t) && now < t - skew
    ensures CheckWindow(notBefore, expiry, now, skew) == Err(Expired(t))
       <==> expiry == At(t) && now > t + skew && (notBefore.Some? ==> notBefore.value - skew <= now)
  {
  }

  /** What is past stays past, later and with no more skew. */
  lemma PastStays(expiry: Expiry, now: Timestamp, skew: Seconds, later: Timestamp, less: Seconds)
    requires IsPast(expiry, now, skew) && now <= later && less <= skew
    ensures IsPast(expiry, later, less)
    ensures forall notBefore :: CheckWindow(notBefore, expiry, later, less).Err?
  {
  }
}
