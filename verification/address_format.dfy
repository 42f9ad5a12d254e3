/** The wallet helper that shortens an account address for display. */
module AddressFormat {

  /** A JavaScript value that may be a string or may be missing (`null` / `undefined`). */
  datatype Option<T> = None | Some(value: T)

  function Min(a: nat, b: nat): nat {
    if a <= b then a else b
  }

  /** A position argument of JavaScript's `String.prototype.slice`: negative positions
      count back from the end, and the result is clamped to 0..len. */
  function SlicePosition(pos: int, len: nat): nat {
    if pos < 0 then (if len + pos < 0 then 0 else len + pos)
    else if pos > len then len
    else pos
  }

  /** JavaScript's `s.slice(start, end)`: empty when the clamped end precedes the clamped start. */
  function Slice(s: string, start: int, end: int): string {
    var from := SlicePosition(start, |s|);
    var to := SlicePosition(end, |s|);
    if from <= to then s[from..to] else ""
  }

  /** `formatAddress`: a missing or empty address formats to ""; otherwise the first (up to) six
      characters, "...", and the last (up to) four characters. */
  function FormatAddress(address: Option<string>): (r: string)
    ensures address.None? || address.value == "" ==> r == ""
    ensures address.Some? && address.value != "" ==>
      var a := address.value;
      var h := Min(6, |a|);
      var t := Min(4, |a|);
      && |r| == h + 3 + t
      && r[..h] == a[..h]
      && r[h..h + 3] == "..."
      && r[h + 3..] == a[|a| - t..]
  {
    match address
    case None => ""
    case Some(a) =>
      if a == "" then ""
      else Slice(a, 0, 6) + "..." + Slice(a, -4, |a|)
  }

  /** A full-length address (ten characters or more, such as a 42-character hex address)
      always formats to 13 characters: its first six, "...", and its last four. */
  lemma LongAddressFormat(a: string)
    requires |a| >= 10
    ensures FormatAddress(Some(a)) == a[..6] + "..." + a[|a| - 4..]
    ensures |FormatAddress(Some(a))| == 13
  {
  }

  /** Up to four characters the head and tail overlap: the address appears whole on both
      sides of the ellipsis. */
  lemma ShortAddressFormat(a: string)
    requires 0 < |a| <= 4
    ensures FormatAddress(Some(a)) == a + "..." + a
  {
  }
}
