/**
 * The display helpers of the wallet hook (src/hooks/useWallet.ts): the
 * abbreviated address shown in the UI and the reported connection flag.
 * The wallet library itself (account, balance, connect, disconnect) is not
 * modelled; its outputs are parameters here.
 */
module Wallet {
  import opened Wrappers

  /**
   * How `String.prototype.slice` reads an index into a string of length `n`:
   * a negative index counts from the end (clamped at 0), a large one is
   * clamped at `n`.
   */
  function SliceIndex(i: int, n: nat): (k: nat)
    ensures k <= n
    ensures 0 <= i <= n ==> k == i
    ensures i > n ==> k == n
    ensures i < 0 ==> n - k == Min(-i, n)
  {
    if i < 0 then (if n + i > 0 then n + i else 0)
    else if i < n then i
    else n
  }

  /** `s.slice(start, end)`: empty when the normalised bounds cross. */
  function Slice(s: string, start: int, end: int): (r: string)
    ensures |r| <= |s|
  {
    var from, to := SliceIndex(start, |s|), SliceIndex(end, |s|);
    if from < to then s[from..to] else ""
  }

  /** `s.slice(start)`: the end defaults to the length. */
  function SliceFrom(s: string, start: int): (r: string)
    ensures |r| <= |s|
  {
    Slice(s, start, |s|)
  }

  function Min(a: int, b: int): int { if a < b then a else b }
  function Max(a: int, b: int): int { if a < b then b else a }

  /**
   * `formatAddress`: an undefined or empty address shows as the empty string;
   * otherwise the first six characters, an ellipsis and the last four.
   */
  function FormatAddress(address: Option<string>): (r: string)
    ensures address == None || address.value == "" <==> r == ""
  {
    if address == None || address.value == "" then ""
    else Slice(address.value, 0, 6) + "..." + SliceFrom(address.value, -4)
  }

  /**
   * The `isConnected` the hook reports: the library's flag, but only once the
   * component has mounted on the client (false during server rendering).
   */
  function ReportedConnected(isClient: bool, libraryConnected: bool): (connected: bool)
    ensures !isClient ==> !connected
    ensures isClient ==> connected == libraryConnected
  {
    isClient && libraryConnected
  }

  // ---------------------------------------------------------------- lemmas

  /** `slice(0, k)` with k >= 0 is the prefix of length min(k, n). */
  lemma SlicePrefix(s: string, k: nat)
    ensures Slice(s, 0, k) == s[..Min(k, |s|)]
  {
  }

  /** `slice(-k)` with k > 0 is the suffix of length min(k, n). */
  lemma SliceSuffix(s: string, k: int)
    requires k > 0
    ensures SliceFrom(s, -k) == s[Max(|s| - k, 0)..]
  {
  }

  /** A non-empty address abbreviates to a[0..min(6,n)] + "..." + a[max(n-4,0)..n]. */
  lemma FormatAddressShape(a: string)
    requires a != ""
    ensures FormatAddress(Some(a)) == a[..Min(6, |a|)] + "..." + a[Max(|a| - 4, 0)..]
  {
    SlicePrefix(a, 6);
    SliceSuffix(a, 4);
  }

  /** The abbreviation has length min(6,n) + 3 + min(4,n). */
  lemma FormatAddressLength(a: string)
    requires a != ""
    ensures |FormatAddress(Some(a))| == Min(6, |a|) + 3 + Min(4, |a|)
  {
    FormatAddressShape(a);
  }

  /** An address of ten or more characters (a 42-character hex address, say) shows as 13. */
  lemma LongAddressLength(a: string)
    requires |a| >= 10
    ensures |FormatAddress(Some(a))| == 13
  {
    FormatAddressLength(a);
  }

  /** An address of at most four characters appears twice around the ellipsis. */
  lemma ShortAddressRepeated(a: string)
    requires 0 < |a| <= 4
    ensures FormatAddress(Some(a)) == a + "..." + a
  {
    FormatAddressShape(a);
    assert a[..|a|] == a;
  }

  /** The abbreviation starts with the first min(6,n) and ends with the last min(4,n) characters. */
  lemma FormatAddressEnds(a: string)
    requires a != ""
    ensures var r := FormatAddress(Some(a));
            var head, tail := Min(6, |a|), Min(4, |a|);
            head + 3 + tail == |r| && r[..head] == a[..head] && r[head..head + 3] == "..."
            && r[|r| - tail..] == a[|a| - tail..]
  {
    FormatAddressShape(a);
  }

  /** Worked value: a 42-character hex address 0x1234, 32 more characters, 5678 shows as "0x1234...5678". */
  lemma HexAddressExample(middle: string)
    requires |middle| == 32
    ensures FormatAddress(Some("0x1234" + middle + "5678")) == "0x1234...5678"
  {
    var a := "0x1234" + middle + "5678";
    FormatAddressShape(a);
    assert a[..6] == "0x1234";
    assert a[38..] == "5678";
  }
}
