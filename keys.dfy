/** The keys, offer id and cycle joined by a dash, that name a placement in the roadmap page
    (app/roadmap/sequencer/SequencerClient.tsx:34), with the decimal rendering of the
    cycle number and a parser showing the key determines the placement. */
module Keys {
  import opened Wrappers

  function DigitChar(d: nat): (c: char)
    requires d < 10
    ensures '0' <= c <= '9' && c as int - '0' as int == d
  {
    ('0' as int + d) as char
  }

  predicate IsDigit(c: char) { '0' <= c <= '9' }

  predicate AllDigits(s: string) { forall k :: 0 <= k < |s| ==> IsDigit(s[k]) }

  /** `String(n)` for a non-negative integer: its decimal digits, most significant first. */
  function NatToDecimal(n: nat): (s: string)
    ensures |s| >= 1 && AllDigits(s)
  {
    if n < 10 then [DigitChar(n)] else NatToDecimal(n / 10) + [DigitChar(n % 10)]
  }

  /** `String(n)` for any integer. */
  function IntToDecimal(n: int): string
  {
    if n < 0 then "-" + NatToDecimal(-n) else NatToDecimal(n)
  }

  function ParseDecimal(s: string): nat
    requires AllDigits(s)
  {
    if s == [] then 0 else ParseDecimal(s[..|s| - 1]) * 10 + (s[|s| - 1] as int - '0' as int)
  }

  lemma {:induction false} DecimalRoundTrip(n: nat)
    ensures ParseDecimal(NatToDecimal(n)) == n
  {
    if n >= 10 {
      DecimalRoundTrip(n / 10);
      var s := NatToDecimal(n);
      assert s[..|s| - 1] == NatToDecimal(n / 10);
    }
  }

  /** The key a placement's start date is stored under. */
  function Key(id: string, cycle: int): string
  {
    id + "-" + IntToDecimal(cycle)
  }

  /** A key starts with the offer's id and a dash, followed by at least one character
      of the cycle. */
  lemma KeyShape(id: string, cycle: int)
    ensures var k := Key(id, cycle); |k| > |id| + 1 && k[..|id|] == id && k[|id|] == '-'
  {
    var k := Key(id, cycle);
    assert k[..|id|] == id;
  }

  /** The position of the last '-' in `s`. */
  function LastDash(s: string): (r: Option<nat>)
    ensures r.Some? ==> r.value < |s| && s[r.value] == '-' && forall k :: r.value < k < |s| ==> s[k] != '-'
    ensures r.None? ==> forall k :: 0 <= k < |s| ==> s[k] != '-'
  {
    if s == [] then None
    else if s[|s| - 1] == '-' then Some(|s| - 1)
    else LastDash(s[..|s| - 1])
  }

  /** Split a key at its last '-' into the offer id and a decimal cycle number. */
  function ParseKey(k: string): Option<(string, nat)>
  {
    match LastDash(k)
    case None => None
    case Some(i) =>
      if |k| > i + 1 && AllDigits(k[i + 1..]) then Some((k[..i], ParseDecimal(k[i + 1..]))) else None
  }

  lemma KeyRoundTrip(id: string, cycle: nat)
    ensures ParseKey(Key(id, cycle)) == Some((id, cycle))
  {
    var k := Key(id, cycle);
    var digits := NatToDecimal(cycle);
    assert k == id + "-" + digits;
    assert k[|id|] == '-';
    assert forall j :: |id| < j < |k| ==> k[j] == digits[j - |id| - 1];
    var i := LastDash(k);
    assert i == Some(|id|);
    assert k[..|id|] == id;
    assert k[|id| + 1..] == digits;
    DecimalRoundTrip(cycle);
  }

  /** With non-negative cycles, two placements share a key only if they are the same
      offer in the same cycle, whatever dashes the ids contain. */
  lemma KeyInjective(id1: string, cycle1: int, id2: string, cycle2: int)
    requires cycle1 >= 0 && cycle2 >= 0 && Key(id1, cycle1) == Key(id2, cycle2)
    ensures id1 == id2 && cycle1 == cycle2
  {
    KeyRoundTrip(id1, cycle1);
    KeyRoundTrip(id2, cycle2);
  }
}
