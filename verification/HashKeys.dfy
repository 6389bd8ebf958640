/** The text under which the queue files a transaction hash: the caller, a bar, and the decimal nonce. */
module HashKeys {
  import opened Options
  import opened Transactions
  import opened QueueOrder

  function Digit(d: int): char
    requires 0 <= d < 10
  {
    ('0' as int + d) as char
  }

  predicate IsDigit(c: char) {
    '0' <= c <= '9'
  }

  /** strconv.FormatUint in base ten. */
  function FormatUint(n: nat): (s: string)
    ensures s != "" && forall i :: 0 <= i < |s| ==> IsDigit(s[i])
  {
    if n < 10 then [Digit(n)] else FormatUint(n / 10) + [Digit(n % 10)]
  }

  /** The value of a string of digits. */
  function DigitsValue(s: string): nat
    requires forall i :: 0 <= i < |s| ==> IsDigit(s[i])
  {
    if s == "" then 0
    else
      assert IsDigit(s[|s| - 1]);
      10 * DigitsValue(s[..|s| - 1]) + (s[|s| - 1] as int - '0' as int)
  }

  /** strconv.ParseUint in base ten for 64 bits: an error on an empty string, another character or overflow. */
  function ParseUint(s: string): Option<U64> {
    if s == "" || exists i :: 0 <= i < |s| && !IsDigit(s[i]) then None
    else if DigitsValue(s) < TwoTo64 then Some(DigitsValue(s))
    else None
  }

  lemma {:induction false} FormatValue(n: nat)
    ensures DigitsValue(FormatUint(n)) == n
  {
    if n >= 10 {
      FormatValue(n / 10);
      var s := FormatUint(n / 10);
      assert (s + [Digit(n % 10)])[..|s|] == s;
    }
  }

  function EncodeKey(caller: Address, nonce: U64): string {
    caller + "|" + FormatUint(nonce)
  }

  /** strings.Index for the bar: its first position, or -1. */
  function IndexOfBar(s: string): (n: int)
    ensures -1 <= n < |s|
    ensures n >= 0 ==> s[n] == '|' && '|' !in s[..n]
    ensures n < 0 ==> '|' !in s
  {
    if s == "" then -1
    else if s[0] == '|' then 0
    else
      var n := IndexOfBar(s[1..]);
      assert s == [s[0]] + s[1..];
      assert n >= 0 ==> s[..n + 1] == [s[0]] + s[1..][..n];
      if n < 0 then -1 else n + 1
  }

  /** The parsing half of getAddrAndNonceByHash. */
  function DecodeKey(key: string): Option<Key> {
    var n := IndexOfBar(key);
    if n < 0 then None
    else
      match ParseUint(key[n + 1..])
      case None => None
      case Some(nonce) => Some(Key(key[..n], nonce))
  }

  lemma {:induction false} FirstBar(caller: string, rest: string)
    requires '|' !in caller
    ensures IndexOfBar(caller + "|" + rest) == |caller|
  {
    var s := caller + "|" + rest;
    if caller != "" {
      assert caller[0] in caller;
      assert s[1..] == caller[1..] + "|" + rest;
      FirstBar(caller[1..], rest);
    }
  }

  /** Parsing inverts printing for every caller and nonce. */
  lemma DecodeEncode(caller: Address, nonce: U64)
    ensures DecodeKey(EncodeKey(caller, nonce)) == Some(Key(caller, nonce))
  {
    var digits := FormatUint(nonce);
    var s := caller + "|" + digits;
    FirstBar(caller, digits);
    FormatValue(nonce);
    assert s[..|caller|] == caller && s[|caller| + 1..] == digits;
  }
}
