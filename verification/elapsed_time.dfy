/**
 * The pure part of the `ElapsedTime` timer label: the split of elapsed
 * seconds into minutes and seconds, and `formatTime`'s "MM:SS" rendering.
 * Both ElapsedTime classes carry the same code.
 */
module ElapsedTime {
  import opened Wrappers
  import opened Decimal

  /** Java's `/` on long: the quotient truncated toward zero. */
  function JavaDiv(a: int, b: int): int
    requires b > 0
  {
    if a >= 0 then a / b else -((-a) / b)
  }

  /** Java's `%` on long: the remainder takes the sign of the dividend. */
  function JavaRem(a: int, b: int): int
    requires b > 0
  {
    if a >= 0 then a % b else -((-a) % b)
  }

  /** The timer task's split of `Duration.getSeconds()` into (seconds / 60, seconds % 60). */
  function Split(total: int): (r: (int, int))
    ensures r.0 * 60 + r.1 == total
    ensures total >= 0 ==> 0 <= r.0 && 0 <= r.1 < 60
    ensures total < 0 ==> r.0 <= 0 && -60 < r.1 <= 0
  {
    (JavaDiv(total, 60), JavaRem(total, 60))
  }

  /** One half of `formatTime`: "0" in front of any value below 10, then the decimal value. */
  function Pad(n: int): (s: string)
    ensures |s| >= 2
    ensures s[0] == '0' <==> n < 10
    ensures n >= 0 ==> AllDigits(s) && ParseDigits(s) == n
    ensures 0 <= n < 100 ==> |s| == 2
    ensures forall i :: 0 <= i < |s| ==> s[i] != ':'
  {
    var digits := LongToString(n);
    if n < 10 then
      assert n >= 0 ==> ParseDigits("0" + digits) == n by {
        if n >= 0 {
          ParseLeadingZero(digits);
        }
      }
      "0" + digits
    else
      digits
  }

  /**
   * `formatTime(minutes, seconds)`: both parts padded, joined by the one
   * ':' of the label.
   */
  function FormatTime(minutes: int, seconds: int): (s: string)
    ensures |s| >= 5 && |Pad(minutes)| < |s|
    ensures s[|Pad(minutes)|] == ':'
    ensures forall i :: 0 <= i < |s| && i != |Pad(minutes)| ==> s[i] != ':'
    ensures 0 <= seconds < 60 ==> |s| == |Pad(minutes)| + 3
  {
    var m, sec := Pad(minutes), Pad(seconds);
    var s := m + ":" + sec;
    assert forall i :: |m| < i < |s| ==> s[i] == sec[i - |m| - 1];
    s
  }

  /** The position of the first occurrence of ch in s: a helper of the label reader below. */
  function IndexOf(s: string, ch: char): (r: Option<nat>)
    ensures r.Some? ==> r.value < |s| && s[r.value] == ch && forall i :: 0 <= i < r.value ==> s[i] != ch
    ensures r.None? ==> forall i :: 0 <= i < |s| ==> s[i] != ch
  {
    if s == [] then None
    else if s[0] == ch then Some(0)
    else match IndexOf(s[1..], ch)
      case None => None
      case Some(k) => Some(k + 1)
  }

  /** Reads a label back: the decimal numbers on either side of its first ':'. */
  function ParseTime(s: string): Option<(nat, nat)> {
    match IndexOf(s, ':')
    case None => None
    case Some(k) =>
      var m, sec := s[..k], s[k + 1..];
      if AllDigits(m) && AllDigits(sec) then Some((ParseDigits(m), ParseDigits(sec))) else None
  }

  /** The label of non-negative minutes and seconds reads back as the same pair. */
  lemma FormatTimeRoundTrip(minutes: nat, seconds: nat)
    ensures ParseTime(FormatTime(minutes, seconds)) == Some((minutes, seconds))
  {
    var m, sec := Pad(minutes), Pad(seconds);
    var s := FormatTime(minutes, seconds);
    assert s[..|m|] == m;
    assert s[|m| + 1..] == sec;
  }

  /** For a non-negative elapsed total the label shows exactly that many seconds, seconds below 60. */
  lemma LabelShowsElapsed(total: nat)
    ensures ParseTime(FormatTime(Split(total).0, Split(total).1)).Some?
    ensures var p := ParseTime(FormatTime(Split(total).0, Split(total).1)).value;
            p.0 * 60 + p.1 == total && p.1 < 60
  {
    FormatTimeRoundTrip(Split(total).0, Split(total).1);
  }
}
