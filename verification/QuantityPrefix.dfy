/** Taking the quantity off signals such as "1000TOSHI|Entry:|0.7172". */
module QuantityPrefix {
  import opened Common
  import opened Decimal

  const KNOWN: seq<string> :=
    ["PEPE", "TOSHI", "TURBO", "FARTCOIN", "HYPE", "DOGE", "SHIB", "BONK", "WIF", "FLOKI"]

  predicate IsUpper(c: char) { 'A' <= c <= 'Z' }

  predicate AllUpper(s: string) { forall i :: 0 <= i < |s| ==> IsUpper(s[i]) }

  /** The length of the digits a text starts with. */
  function DigitRun(s: string): (n: nat)
    ensures n <= |s| && AllDigits(s[..n]) && (n < |s| ==> !IsDigit(s[n]))
  {
    if s != "" && IsDigit(s[0]) then 1 + DigitRun(s[1..]) else 0
  }

  /** The length of the upper-case letters a text starts with, at most the limit. */
  function UpperRun(s: string, limit: nat): (n: nat)
    ensures n <= |s| && n <= limit && AllUpper(s[..n])
  {
    if limit > 0 && s != "" && IsUpper(s[0]) then 1 + UpperRun(s[1..], limit - 1) else 0
  }

  /** The first known name the text starts with. */
  function KnownName(s: string, names: seq<string>): (name: Option<string>)
    ensures name.Some? ==> name.value in names && name.value <= s
  {
    if names == [] then None
    else if names[0] <= s then Some(names[0])
    else KnownName(s, names[1..])
  }

  /** The coin name after the digits: a known one, else two to ten upper-case letters. */
  function CoinOf(s: string): Option<string> {
    if KnownName(s, KNOWN).Some? then KnownName(s, KNOWN)
    else if UpperRun(s, 10) >= 2 then Some(s[..UpperRun(s, 10)])
    else None
  }

  function ReplaceFirst(s: string, part: string, subst: string): string {
    if part <= s then subst + s[|part|..]
    else if s == "" then ""
    else [s[0]] + ReplaceFirst(s[1..], part, subst)
  }

  datatype Extracted = Extracted(quantity: nat, coin: string, cleaned: string)

  function ExtractQuantity(signal: string): Option<Extracted> {
    var n := DigitRun(signal);
    if n == 0 || CoinOf(signal[n..]).None? then None
    else
      var quantity, coin := Parse(signal[..n]), CoinOf(signal[n..]).value;
      Some(Extracted(quantity, coin, ReplaceFirst(signal, ToDecimal(quantity) + coin, coin)))
  }

  // ---- What the cleaned signal is ----

  lemma CoinStartsUpper(s: string)
    requires CoinOf(s).Some?
    ensures CoinOf(s).value != "" && CoinOf(s).value <= s && IsUpper(s[0])
  {
    var coin := CoinOf(s).value;
    if KnownName(s, KNOWN).Some? {
      assert coin in KNOWN;
      assert coin != "" && IsUpper(coin[0]) by {
        assert forall i :: 0 <= i < |KNOWN| ==> KNOWN[i] != "" && IsUpper(KNOWN[i][0]);
      }
    } else {
      assert IsUpper(coin[0]);
    }
  }

  function Zeros(n: nat): (s: string)
    ensures |s| == n && forall i :: 0 <= i < n ==> s[i] == '0'
  {
    if n == 0 then "" else "0" + Zeros(n - 1)
  }

  lemma ZeroAhead(s: string)
    requires AllDigits(s)
    ensures AllDigits("0" + s) && Parse("0" + s) == Parse(s)
  {
    ParseAppend("0", s);
    assert "0"[..0] == "" && Parse("0"[..0]) == 0;
    assert Parse("0") == 0;
  }

  lemma ZeroMore(tail: string, zeros: nat)
    requires AllDigits(tail) && tail == Zeros(zeros) + ToDecimal(Parse(tail))
    ensures AllDigits("0" + tail) && "0" + tail == Zeros(zeros + 1) + ToDecimal(Parse("0" + tail))
  {
    ZeroAhead(tail);
    assert "0" + (Zeros(zeros) + ToDecimal(Parse(tail))) == Zeros(zeros + 1) + ToDecimal(Parse(tail));
  }

  /** Digits are leading zeros and the notation of their number. */
  lemma {:induction false} LeadingZeros(s: string) returns (zeros: nat)
    requires s != "" && AllDigits(s)
    ensures s == Zeros(zeros) + ToDecimal(Parse(s))
    ensures zeros > 0 <==> s[0] == '0' && s != "0"
  {
    if s[0] != '0' {
      ToDecimalParse(s);
      zeros := 0;
    } else if |s| == 1 {
      ZeroAhead("");
      assert s == "0" + "" && Parse("") == 0;
      zeros := 0;
    } else {
      var tail := s[1..];
      zeros := LeadingZeros(tail);
      assert s == "0" + tail;
      ZeroMore(tail, zeros);
      zeros := zeros + 1;
    }
  }

  /** The text does not start with a zero, or it does with a single one before something else. */
  predicate FewZerosAhead(key: string) {
    key != "" && (key[0] == '0' ==> |key| > 1 && key[1] != '0')
  }

  lemma KeyIsBehindZeros(zeros: nat, key: string, tail: string)
    requires zeros > 0 && FewZerosAhead(key)
    ensures !(key <= Zeros(zeros) + (key + tail))
  {
    var text := Zeros(zeros) + (key + tail);
    assert text[0] == '0' && (key[0] == '0' ==> text[1] == '0');
  }

  lemma ReplaceLater(c: char, s: string, part: string, subst: string)
    requires !(part <= [c] + s)
    ensures ReplaceFirst([c] + s, part, subst) == [c] + ReplaceFirst(s, part, subst)
  {
    assert ([c] + s)[1..] == s;
  }

  lemma {:induction false} ReplaceBehindZeros(zeros: nat, key: string, subst: string, tail: string)
    requires FewZerosAhead(key)
    ensures ReplaceFirst(Zeros(zeros) + (key + tail), key, subst) == Zeros(zeros) + (subst + tail)
  {
    if zeros == 0 {
      assert Zeros(0) + (key + tail) == key + tail && Zeros(0) + (subst + tail) == subst + tail;
    } else {
      var later := Zeros(zeros - 1) + (key + tail);
      assert Zeros(zeros) + (key + tail) == "0" + later;
      KeyIsBehindZeros(zeros, key, tail);
      ReplaceLater('0', later, key, subst);
      ReplaceBehindZeros(zeros - 1, key, subst, tail);
      assert "0" + (Zeros(zeros - 1) + (subst + tail)) == Zeros(zeros) + (subst + tail);
    }
  }

  /** The cleaned signal lacks exactly the number, keeping any leading zeros: the number followed by the cleaned
      signal is the signal again exactly when it has no leading zero or the number is zero. */
  lemma ExtractionRoundTrip(signal: string)
    requires ExtractQuantity(signal).Some?
    ensures
      var n, e := DigitRun(signal), ExtractQuantity(signal).value;
      && e.quantity == Parse(signal[..n]) && e.coin <= signal[n..]
      && |ToDecimal(e.quantity)| <= n
      && e.cleaned == signal[..n - |ToDecimal(e.quantity)|] + signal[n..]
      && (ToDecimal(e.quantity) + e.cleaned == signal <==> signal[0] != '0' || e.quantity == 0)
  {
    var n, e := DigitRun(signal), ExtractQuantity(signal).value;
    CoinStartsUpper(signal[n..]);
    ZeroNotation(e.quantity);
    RoundTripParts(signal, n, e.coin);
  }

  lemma RoundTripParts(signal: string, n: nat, coin: string)
    requires 0 < n <= |signal| && AllDigits(signal[..n]) && coin <= signal[n..] && coin != "" && coin[0] != '0'
    ensures
      var number := ToDecimal(Parse(signal[..n]));
      var cleaned := ReplaceFirst(signal, number + coin, coin);
      && |number| <= n && cleaned == signal[..n - |number|] + signal[n..]
      && (number + cleaned == signal <==> signal[0] != '0' || number == "0")
  {
    var zeros := ZerosAhead(signal[..n]);
    var number := ToDecimal(Parse(signal[..n]));
    CleanedSignal(signal, n, zeros, number, coin);
    NumberAndZeros(zeros, number, signal[n..], signal);
  }

  /** How many zeros are ahead of the number. */
  lemma ZerosAhead(digits: string) returns (zeros: nat)
    requires digits != "" && AllDigits(digits)
    ensures
      var number := ToDecimal(Parse(digits));
      && digits == Zeros(zeros) + number && (number[0] == '0' ==> number == "0")
      && (zeros == 0 || number == "0" <==> digits[0] != '0' || number == "0")
  {
    zeros := LeadingZeros(digits);
    ZeroNotation(Parse(digits));
  }

  lemma CleanedSignal(signal: string, n: nat, zeros: nat, number: string, coin: string)
    requires n <= |signal| && signal[..n] == Zeros(zeros) + number && coin <= signal[n..]
    requires number != "" && coin != "" && coin[0] != '0' && (number[0] == '0' ==> number == "0")
    ensures n == zeros + |number| && signal[..zeros] == Zeros(zeros) && signal == Zeros(zeros) + number + signal[n..]
    ensures ReplaceFirst(signal, number + coin, coin) == Zeros(zeros) + signal[n..]
  {
    SignalParts(signal, n, Zeros(zeros), number, coin);
    ReplaceBehindZeros(zeros, number + coin, coin, signal[n + |coin|..]);
  }

  lemma SignalParts(signal: string, n: nat, zeros: string, number: string, coin: string)
    requires n <= |signal| && signal[..n] == zeros + number && coin <= signal[n..]
    ensures n == |zeros| + |number| && signal[..|zeros|] == zeros && signal == zeros + number + signal[n..]
    ensures n + |coin| <= |signal| && signal[n..] == coin + signal[n + |coin|..]
    ensures signal == zeros + (number + coin + signal[n + |coin|..])
  {
    assert signal[..|zeros|] == signal[..n][..|zeros|];
    assert signal == signal[..n] + signal[n..];
    assert signal[n..][|coin|..] == signal[n + |coin|..];
  }

  lemma ZeroNotation(n: nat)
    ensures ToDecimal(n)[0] == '0' ==> ToDecimal(n) == "0"
    ensures ToDecimal(n) == "0" <==> n == 0
  {
    assert ToDecimal(0) == "0";
  }

  lemma NumberAndZeros(zeros: nat, number: string, rest: string, signal: string)
    requires number != "" && (number[0] == '0' ==> number == "0") && signal == Zeros(zeros) + number + rest
    ensures number + (Zeros(zeros) + rest) == signal <==> zeros == 0 || number == "0"
  {
    if number == "0" {
      ZerosCommute(zeros);
      assert number + (Zeros(zeros) + rest) == "0" + Zeros(zeros) + rest;
    } else if zeros > 0 {
      assert signal[0] == '0' && (number + (Zeros(zeros) + rest))[0] == number[0];
    } else {
      assert number + (Zeros(0) + rest) == signal;
    }
  }

  lemma ZerosCommute(n: nat)
    ensures "0" + Zeros(n) == Zeros(n) + "0"
  {
  }

  // ---- Which coin is found ----

  /** The coin is the first known name after the digits or, without one, the two to ten upper-case letters there,
      as many as there are up to ten; nothing is found exactly when there are no digits or no such coin. */
  lemma CoinIs(signal: string)
    ensures
      var n := DigitRun(signal);
      var rest := signal[n..];
      && (n == 0 ==> ExtractQuantity(signal).None?)
      && (ExtractQuantity(signal).Some? ==> IsCoin(ExtractQuantity(signal).value.coin, rest))
      && (n > 0 && ExtractQuantity(signal).None? ==> forall coin :: !IsCoin(coin, rest))
  {
    CoinOfIs(signal[DigitRun(signal)..]);
  }

  lemma CoinOfIs(rest: string)
    ensures CoinOf(rest).Some? ==> IsCoin(CoinOf(rest).value, rest)
    ensures CoinOf(rest).None? ==> forall coin :: !IsCoin(coin, rest)
  {
    FirstKnown(rest, KNOWN);
    UpperRunIsMaximal(rest, 10);
  }

  ghost predicate IsCoin(coin: string, rest: string) {
    if exists k :: 0 <= k < |KNOWN| && KNOWN[k] <= rest then
      exists k :: 0 <= k < |KNOWN| && KNOWN[k] == coin <= rest && forall j :: 0 <= j < k ==> !(KNOWN[j] <= rest)
    else
      && 2 <= |coin| <= 10 && coin <= rest && (forall i :: 0 <= i < |coin| ==> 'A' <= coin[i] <= 'Z')
      && (|coin| == 10 || |coin| == |rest| || !('A' <= rest[|coin|] <= 'Z'))
  }

  lemma {:induction false} FirstKnown(s: string, names: seq<string>)
    ensures KnownName(s, names).None? <==> forall k :: 0 <= k < |names| ==> !(names[k] <= s)
    ensures KnownName(s, names).Some? ==>
              exists k :: 0 <= k < |names| && names[k] == KnownName(s, names).value <= s
                          && forall j :: 0 <= j < k ==> !(names[j] <= s)
  {
    if names != [] && !(names[0] <= s) {
      FirstKnown(s, names[1..]);
      assert forall k :: 0 < k < |names| ==> names[k] == names[1..][k - 1];
      if KnownName(s, names[1..]).Some? {
        var k :| 0 <= k < |names| - 1 && names[1..][k] == KnownName(s, names[1..]).value <= s
                 && forall j :: 0 <= j < k ==> !(names[1..][j] <= s);
        assert names[k + 1] == KnownName(s, names).value;
        assert forall j :: 0 < j < k + 1 ==> names[j] == names[1..][j - 1];
      }
    }
  }

  lemma {:induction false} UpperRunIsMaximal(s: string, limit: nat)
    ensures UpperRun(s, limit) < limit && UpperRun(s, limit) < |s| ==> !IsUpper(s[UpperRun(s, limit)])
  {
    if limit > 0 && s != "" && IsUpper(s[0]) {
      UpperRunIsMaximal(s[1..], limit - 1);
    }
  }
}
