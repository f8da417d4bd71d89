/** The background worker of backend/worker.js: on the message "Start work"
    it adds up 0, 1, ..., 99999999 and replies with the total. JavaScript
    numbers are doubles; every partial sum here is an integer below 2^53, so
    the double arithmetic is exact and unbounded integers model it faithfully. */
module Worker {
  import opened Wrappers

  /** Number of loop iterations in `performWork`. */
  const Iterations: nat := 100000000
  const StartMessage: string := "Start work"
  const ReplyPrefix: string := "Work result: "
  /** 2^53: integers below this are represented exactly by a double. */
  const ExactIntegerBound: nat := 0x20_0000_0000_0000

  /** The `data` of a message event: a string, or a value of another type. */
  datatype MessageData = Text(text: string) | NonText

  /** 0 + 1 + ... + (n - 1). */
  function SumBelow(n: nat): nat {
    if n == 0 then 0 else SumBelow(n - 1) + (n - 1)
  }

  /** Gauss's closed form. */
  lemma {:induction false} SumBelowClosedForm(n: nat)
    ensures 2 * SumBelow(n) == n * (n - 1)
  {
    if n > 0 {
      SumBelowClosedForm(n - 1);
      assert n * (n - 1) == (n - 1) * (n - 2) + 2 * (n - 1);
    }
  }

  /** The running sum never decreases. */
  lemma {:induction false} SumBelowMonotone(m: nat, n: nat)
    requires m <= n
    ensures SumBelow(m) <= SumBelow(n)
    decreases n
  {
    if m < n {
      SumBelowMonotone(m, n - 1);
    }
  }

  /** The counting loop, for any bound `n`. */
  method SumLoop(n: nat) returns (sum: nat)
    ensures sum == SumBelow(n)
    ensures 2 * sum == n * (n - 1)
  {
    sum := 0;
    var i := 0;
    while i < n
      invariant 0 <= i <= n
      invariant sum == SumBelow(i)
      invariant 2 * sum == i * (i - 1)
    {
      sum := sum + i;
      i := i + 1;
    }
  }

  /** `performWork`: the sum of every i with 0 <= i < 100000000. Every partial
      sum is at most the total, which is below 2^53. */
  method PerformWork() returns (sum: nat)
    ensures sum == SumBelow(Iterations)
    ensures sum == Iterations * (Iterations - 1) / 2 == 4999999950000000
    ensures forall i :: 0 <= i <= Iterations ==> SumBelow(i) <= sum < ExactIntegerBound
  {
    sum := SumLoop(Iterations);
    forall i | 0 <= i <= Iterations
      ensures SumBelow(i) <= sum
    {
      SumBelowMonotone(i, Iterations);
    }
  }

  /** Decimal digits of a natural number, as JavaScript prints an integer
      below 10^21. */
  function DecimalString(n: nat): (s: string)
    ensures |s| >= 1
    ensures forall k :: 0 <= k < |s| ==> '0' <= s[k] <= '9'
    ensures n >= 10 ==> s[0] != '0'
  {
    if n < 10 then [DigitChar(n)] else DecimalString(n / 10) + [DigitChar(n % 10)]
  }

  function DigitChar(d: nat): (c: char)
    requires d < 10
    ensures '0' <= c <= '9'
  {
    ('0' as int + d) as char
  }

  /** The value of a string of decimal digits, or None if it is empty or holds
      anything else. */
  function ParseDecimal(s: string): (r: Option<nat>)
    ensures r.Some? <==> |s| >= 1 && forall k :: 0 <= k < |s| ==> '0' <= s[k] <= '9'
  {
    if |s| == 0 then None
    else if forall k :: 0 <= k < |s| ==> '0' <= s[k] <= '9' then Some(DigitsValue(s))
    else None
  }

  function DigitsValue(s: string): nat
    requires forall k :: 0 <= k < |s| ==> '0' <= s[k] <= '9'
  {
    if |s| == 0 then 0
    else DigitsValue(s[..|s| - 1]) * 10 + (s[|s| - 1] as int - '0' as int)
  }

  /** Printing a number and reading it back gives the number. */
  lemma {:induction false} DecimalRoundTrip(n: nat)
    ensures ParseDecimal(DecimalString(n)) == Some(n)
  {
    var s := DecimalString(n);
    if n >= 10 {
      DecimalRoundTrip(n / 10);
      var prefix := DecimalString(n / 10);
      assert s[..|s| - 1] == prefix;
      assert DigitsValue(s) == DigitsValue(prefix) * 10 + n % 10;
    }
  }

  /** `self.onmessage`: only the exact string "Start work" triggers the work,
      and the reply is "Work result: " followed by the total in decimal; any
      other message gets no reply. */
  method OnMessage(data: MessageData) returns (reply: Option<string>)
    ensures reply.Some? <==> data == Text(StartMessage)
    ensures reply.Some? ==>
              && |reply.value| > |ReplyPrefix|
              && reply.value[..|ReplyPrefix|] == ReplyPrefix
              && ParseDecimal(reply.value[|ReplyPrefix|..]) == Some(4999999950000000)
              && reply.value[|ReplyPrefix|] != '0'
  {
    if data == Text(StartMessage) {
      var result := PerformWork();
      var text := ReplyPrefix + DecimalString(result);
      DecimalRoundTrip(result);
      assert text[..|ReplyPrefix|] == ReplyPrefix;
      assert text[|ReplyPrefix|..] == DecimalString(result);
      reply := Some(text);
    } else {
      reply := None;
    }
  }
}
