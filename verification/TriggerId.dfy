/** The chain selector in a trigger id (parseChainSelectorFromTriggerID in simulator_utils.go):
    the first match of (?i)chainselector:(\d+), read as an unsigned 64-bit number. */
module TriggerId {
  import opened Text

  const KEY := "chainselector:"
  const LIMIT: nat := 0x1_0000_0000_0000_0000

  /** Case-insensitive equality with a lower-case letter of the key. Under Unicode simple folding
      the long s is a form of s. */
  predicate Folds(c: char, k: char) {
    LowerChar(c) == k || (k == 's' && c == '\U{17F}')
  }

  predicate IsKey(s: string) {
    |s| == |KEY| && forall i | 0 <= i < |KEY| :: Folds(s[i], KEY[i])
  }

  /** The expression matches at the start of s: the key and at least one digit. */
  predicate MatchesAtStart(s: string) {
    |s| > |KEY| && IsKey(s[..|KEY|]) && IsDigit(s[|KEY|])
  }

  function DigitRun(s: string): (r: string)
    ensures AllDigits(r)
  {
    if s == [] || !IsDigit(s[0]) then [] else [s[0]] + DigitRun(s[1..])
  }

  /** The digits of the leftmost match. */
  function FindDigits(id: string): (r: Option<string>)
    ensures r.Some? ==> AllDigits(r.value)
  {
    if MatchesAtStart(id) then Some(DigitRun(id[|KEY|..]))
    else if id == [] then None
    else FindDigits(id[1..])
  }

  function ParseChainSelector(id: string): Option<nat> {
    match FindDigits(id)
    case None => None
    case Some(digits) =>
      var v := DecimalValue(digits);
      if v < LIMIT then Some(v) else None
  }

  lemma {:induction false} DigitRunOf(digits: string, post: string)
    requires AllDigits(digits)
    requires post == [] || !IsDigit(post[0])
    ensures DigitRun(digits + post) == digits
  {
    if digits != [] {
      assert (digits + post)[1..] == digits[1..] + post;
      DigitRunOf(digits[1..], post);
    } else {
      assert digits + post == post;
    }
  }

  lemma {:induction false} LeftmostMatch(id: string, k: nat)
    requires k <= |id| && forall p | 0 <= p < k :: !MatchesAtStart(id[p..])
    ensures FindDigits(id) == FindDigits(id[k..])
  {
    if k > 0 {
      assert id[0..] == id;
      forall p | 0 <= p < k - 1 ensures !MatchesAtStart(id[1..][p..]) {
        assert id[1..][p..] == id[p + 1..];
      }
      LeftmostMatch(id[1..], k - 1);
      assert id[1..][k - 1..] == id[k..];
    }
  }

  /** An id with the key somewhere, digits after it and more text around. */
  function IdWith(pre: string, key: string, digits: string, post: string): string {
    pre + (key + (digits + post))
  }

  /** The parser reads exactly the digits after the first match, in any case of the key and with
      any number of leading zeros: their value when it fits 64 bits, nothing otherwise. */
  lemma ParsesFirstMatch(pre: string, key: string, digits: string, post: string)
    requires IsKey(key) && digits != [] && AllDigits(digits)
    requires post == [] || !IsDigit(post[0])
    requires forall p | 0 <= p < |pre| :: !MatchesAtStart(IdWith(pre, key, digits, post)[p..])
    ensures ParseChainSelector(IdWith(pre, key, digits, post))
         == if DecimalValue(digits) < LIMIT then Some(DecimalValue(digits)) else None
  {
    var id := IdWith(pre, key, digits, post);
    LeftmostMatch(id, |pre|);
    assert id[|pre|..] == key + (digits + post);
    DigitRunOf(digits, post);
    MatchAtKey(key, digits + post);
  }

  lemma MatchAtKey(key: string, rest: string)
    requires IsKey(key) && rest != [] && IsDigit(rest[0])
    ensures FindDigits(key + rest) == Some(DigitRun(rest))
  {
    var s := key + rest;
    assert s[..|KEY|] == key && s[|KEY|..] == rest;
    assert s[|KEY|] == rest[0];
  }

  /** Round trip: the decimal numeral of a 64-bit selector comes back, a larger one is refused. */
  lemma SelectorRoundTrip(pre: string, key: string, v: nat, post: string)
    requires IsKey(key)
    requires post == [] || !IsDigit(post[0])
    requires forall p | 0 <= p < |pre| :: !MatchesAtStart(IdWith(pre, key, Decimal(v), post)[p..])
    ensures ParseChainSelector(IdWith(pre, key, Decimal(v), post)) == if v < LIMIT then Some(v) else None
  {
    ParsesFirstMatch(pre, key, Decimal(v), post);
    DecimalRoundTrip(v);
  }

  /** Without a match there is no selector. */
  lemma {:induction false} NoMatchNoSelector(id: string)
    ensures FindDigits(id).None? <==> forall p | 0 <= p <= |id| :: !MatchesAtStart(id[p..])
  {
    assert id[0..] == id;
    if id != [] && !MatchesAtStart(id) {
      NoMatchNoSelector(id[1..]);
      forall p | 1 <= p <= |id| ensures id[p..] == id[1..][p - 1..] {
      }
    }
  }

  predicate Ascii(s: string) {
    forall i | 0 <= i < |s| :: s[i] as int < 128
  }

  /** The key is met in any case: an ASCII text is the key exactly when its lower case is, and beyond
      ASCII only the long s stands for a letter. */
  lemma KeyIgnoresCase(s: string)
    ensures Ascii(s) ==> (IsKey(s) <==> Lower(s) == KEY)
    ensures IsKey(s) ==> forall i | 0 <= i < |s| && s[i] as int >= 128 :: s[i] == '\U{17F}' && KEY[i] == 's'
    ensures IsKey(s) ==> forall i | 0 <= i < |s| && KEY[i] == 's' :: IsKey(s[i := '\U{17F}'])
  {
  }

  /** Trigger ids of the simulator, written with capitals, give their selector. */
  lemma EvmTriggerId(v: nat, rest: string)
    requires rest == [] || !IsDigit(rest[0])
    ensures ParseChainSelector("evm:" + ("ChainSelector:" + (Decimal(v) + rest)))
         == if v <= 0xFFFF_FFFF_FFFF_FFFF then Some(v) else None
  {
    var key := "ChainSelector:";
    KeyIgnoresCase(key);
    assert Lower(key) == KEY;
    var id := IdWith("evm:", key, Decimal(v), rest);
    forall p | 0 <= p < 4 ensures !MatchesAtStart(id[p..]) {
      assert id[p] == "evm:"[p] && |id| > |KEY| + 4;
      assert id[p..][0] == id[p] && !Folds(id[p], KEY[0]);
    }
    SelectorRoundTrip("evm:", key, v, rest);
  }
}
