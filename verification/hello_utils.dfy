/**
  The string helpers of the UDP "Hello" client and server: the request
  message a client sends, the server's response to it, and the client's
  check that a response answers a given request.

  `Character.isDigit` and `Character.getNumericValue` (Unicode tables) are
  a `CharClass` parameter, and the locale number formats the check tries
  are a parameter sequence of formatting functions.
*/
module HelloUtils {
  import opened Streams

  // ---------------------------------------------------------------------
  // Decimal notation
  // ---------------------------------------------------------------------

  predicate IsAsciiDigit(c: char) {
    '0' <= c <= '9'
  }

  /** The character of a decimal digit. */
  function DigitChar(d: int): (c: char)
    requires 0 <= d <= 9
    ensures IsAsciiDigit(c) && c as int - '0' as int == d
  {
    ('0' as int + d) as char
  }

  /** The decimal digits of a natural number, most significant first, without leading zeros. */
  function NatDigits(n: nat): (r: string)
    ensures r != [] && forall i :: 0 <= i < |r| ==> IsAsciiDigit(r[i])
  {
    if n < 10 then [DigitChar(n)] else NatDigits(n / 10) + [DigitChar(n % 10)]
  }

  /** `Integer.toString`: a minus sign for negative numbers, then the digits. */
  function Decimal(n: int): string {
    if n < 0 then "-" + NatDigits(-n) else NatDigits(n)
  }

  /** The value of a string of decimal digits. */
  function ParseDigits(s: string): int {
    if s == [] then 0 else 10 * ParseDigits(s[..|s| - 1]) + (s[|s| - 1] as int - '0' as int)
  }

  /** Reading back the digits of `n` gives `n`. */
  lemma {:induction false} ParseNatDigits(n: nat)
    ensures ParseDigits(NatDigits(n)) == n
  {
    if n >= 10 {
      ParseNatDigits(n / 10);
      var r := NatDigits(n);
      assert r[..|r| - 1] == NatDigits(n / 10);
    }
  }

  /** The notation of a non-negative number is all digits and reads back as the number; a negative one starts with '-'. */
  lemma DecimalSpec(n: int)
    ensures Decimal(n) != []
    ensures n >= 0 ==> (forall i :: 0 <= i < |Decimal(n)| ==> IsAsciiDigit(Decimal(n)[i])) && ParseDigits(Decimal(n)) == n
    ensures n < 0 ==> Decimal(n)[0] == '-'
  {
    if n >= 0 {
      ParseNatDigits(n);
    }
  }

  /** Different numbers are written differently. */
  lemma DecimalInjective(a: int, b: int)
    requires Decimal(a) == Decimal(b)
    ensures a == b
  {
    DecimalSpec(a);
    DecimalSpec(b);
    if a < 0 && b < 0 {
      assert NatDigits(-a) == Decimal(a)[1..] == Decimal(b)[1..] == NatDigits(-b);
      ParseNatDigits(-a);
      ParseNatDigits(-b);
    } else if a >= 0 && b >= 0 {
      assert ParseDigits(Decimal(a)) == ParseDigits(Decimal(b));
    }
  }

  // ---------------------------------------------------------------------
  // Requests and responses
  // ---------------------------------------------------------------------

  /** `createMessage`: the prefix, the thread number, '_', the request number. */
  function CreateMessage(prefix: string, numberThread: int, numberRequest: int): string {
    prefix + Decimal(numberThread) + "_" + Decimal(numberRequest)
  }

  /**
    The message splits back into its parts: after the prefix come the
    notation of the thread number, one '_', and the notation of the
    request number, and a non-negative number reads back from its part.
  */
  lemma CreateMessageParts(prefix: string, numberThread: int, numberRequest: int)
    ensures var m, t := CreateMessage(prefix, numberThread, numberRequest), |prefix| + |Decimal(numberThread)|;
            && |m| == t + 1 + |Decimal(numberRequest)|
            && m[..|prefix|] == prefix
            && m[|prefix|..t] == Decimal(numberThread)
            && m[t] == '_'
            && m[t + 1..] == Decimal(numberRequest)
            && (numberThread >= 0 ==> ParseDigits(m[|prefix|..t]) == numberThread)
            && (numberRequest >= 0 ==> ParseDigits(m[t + 1..]) == numberRequest)
  {
    DecimalSpec(numberThread);
    DecimalSpec(numberRequest);
  }

  /** `response`: the request greeted. */
  function Response(request: string): string {
    "Hello, " + request
  }

  /** The response is the greeting followed by the whole request. */
  lemma ResponseSpec(request: string)
    ensures |Response(request)| == 7 + |request|
    ensures Response(request)[..7] == "Hello, " && Response(request)[7..] == request
  {
  }

  // ---------------------------------------------------------------------
  // Normalising digits
  // ---------------------------------------------------------------------

  /** `Character.isDigit` and `Character.getNumericValue`. */
  datatype CharClass = CharClass(isDigit: char -> bool, numericValue: char -> int)

  /** Every digit has a single-digit numeric value, as every Unicode decimal digit does. */
  ghost predicate DigitValuesInRange(cls: CharClass) {
    forall c :: cls.isDigit(c) ==> 0 <= cls.numericValue(c) <= 9
  }

  /** On ASCII the class agrees with '0'..'9' and their values. */
  ghost predicate AsciiExact(cls: CharClass) {
    forall c: char :: c as int < 128 ==>
      && (cls.isDigit(c) <==> IsAsciiDigit(c))
      && (IsAsciiDigit(c) ==> cls.numericValue(c) == c as int - '0' as int)
  }

  /** What `normalizeNumbersInString` appends for one character. */
  function NormalizeChar(c: char, cls: CharClass): string {
    if cls.isDigit(c) then Decimal(cls.numericValue(c)) else [c]
  }

  /** The normalised string: every digit replaced by the notation of its numeric value. */
  function Normalized(s: string, cls: CharClass): string {
    if s == [] then [] else Normalized(s[..|s| - 1], cls) + NormalizeChar(s[|s| - 1], cls)
  }

  /** `normalizeNumbersInString`: the `StringBuilder` loop. */
  method NormalizeNumbersInString(s: string, cls: CharClass) returns (r: string)
    ensures r == Normalized(s, cls)
  {
    r := [];
    for i := 0 to |s|
      invariant r == Normalized(s[..i], cls)
    {
      assert s[..i + 1][..i] == s[..i];
      if cls.isDigit(s[i]) {
        r := r + Decimal(cls.numericValue(s[i]));
      } else {
        r := r + [s[i]];
      }
    }
    assert s[..|s|] == s;
  }

  /**
    With single-digit values, normalising keeps the length, keeps every
    non-digit, and turns every digit into the ASCII digit of its value.
  */
  lemma {:induction false} NormalizedSpec(s: string, cls: CharClass)
    requires DigitValuesInRange(cls)
    ensures |Normalized(s, cls)| == |s|
    ensures forall i :: 0 <= i < |s| ==>
              Normalized(s, cls)[i] == if cls.isDigit(s[i]) then DigitChar(cls.numericValue(s[i])) else s[i]
  {
    if s != [] {
      var init := s[..|s| - 1];
      NormalizedSpec(init, cls);
      forall i | 0 <= i < |s|
        ensures Normalized(s, cls)[i] == if cls.isDigit(s[i]) then DigitChar(cls.numericValue(s[i])) else s[i]
      {
        if i < |s| - 1 {
          assert s[i] == init[i];
        }
      }
    }
  }

  /** ASCII digits and non-digits come through normalisation unchanged. */
  lemma NormalizedKeepsAscii(s: string, cls: CharClass)
    requires DigitValuesInRange(cls) && AsciiExact(cls)
    requires forall i :: 0 <= i < |s| ==> cls.isDigit(s[i]) ==> IsAsciiDigit(s[i])
    ensures Normalized(s, cls) == s
  {
    NormalizedSpec(s, cls);
    forall i | 0 <= i < |s| ensures Normalized(s, cls)[i] == s[i] {
      if cls.isDigit(s[i]) {
        assert s[i] as int < 128;
      }
    }
  }

  // ---------------------------------------------------------------------
  // Runs of digits
  // ---------------------------------------------------------------------

  /** The length of the run of ASCII digits that `s` starts with. */
  function DigitPrefix(s: string): (n: nat)
    ensures n <= |s|
    ensures forall i :: 0 <= i < n ==> IsAsciiDigit(s[i])
    ensures n == |s| || !IsAsciiDigit(s[n])
  {
    if s != [] && IsAsciiDigit(s[0]) then 1 + DigitPrefix(s[1..]) else 0
  }

  /** The matches of `[0-9]+` that successive `find()` calls return: the maximal runs of digits, left to right. */
  function Runs(s: string): seq<string>
    decreases |s|
  {
    if s == [] then []
    else if !IsAsciiDigit(s[0]) then Runs(s[1..])
    else [s[..DigitPrefix(s)]] + Runs(s[DigitPrefix(s)..])
  }

  /** A run of digits ending at `k` is the whole digit prefix. */
  lemma {:induction false} DigitPrefixExact(s: string, k: nat)
    requires k <= |s| && (forall i :: 0 <= i < k ==> IsAsciiDigit(s[i])) && (k == |s| || !IsAsciiDigit(s[k]))
    ensures DigitPrefix(s) == k
  {
    if k > 0 {
      DigitPrefixExact(s[1..], k - 1);
    }
  }

  /**
    `run` occurs in `s` at position `p` as a maximal run of digits: it is a
    non-empty string of digits, and no digit precedes or follows it there.
  */
  predicate MaximalRunAt(s: string, run: string, p: int) {
    && run != [] && (forall i :: 0 <= i < |run| ==> IsAsciiDigit(run[i]))
    && 0 <= p && p + |run| <= |s| && s[p..p + |run|] == run
    && (p == 0 || !IsAsciiDigit(s[p - 1]))
    && (p + |run| == |s| || !IsAsciiDigit(s[p + |run|]))
  }

  /** The runs occur in `s` at the positions `ps`, each maximal, left to right and not overlapping. */
  predicate RunsAt(s: string, runs: seq<string>, ps: seq<int>) {
    && |ps| == |runs|
    && (forall k :: 0 <= k < |runs| ==> MaximalRunAt(s, runs[k], ps[k]))
    && (forall k :: 0 < k < |runs| ==> ps[k - 1] + |runs[k - 1]| < ps[k])
  }

  /** Runs found in a suffix `s[d..]` that starts at a boundary of digits are runs of `s`, shifted by `d`. */
  lemma ShiftRuns(s: string, d: int, runs: seq<string>, qs: seq<int>) returns (ps: seq<int>)
    requires 0 < d <= |s|
    requires !IsAsciiDigit(s[d - 1]) || d == |s| || !IsAsciiDigit(s[d])
    requires RunsAt(s[d..], runs, qs)
    ensures RunsAt(s, runs, ps)
    ensures |ps| == |qs| && forall k :: 0 <= k < |ps| ==> ps[k] == qs[k] + d
    ensures forall k :: 0 <= k < |ps| ==> ps[k] > d || !IsAsciiDigit(s[d - 1])
  {
    var t := s[d..];
    ps := seq(|qs|, k requires 0 <= k < |qs| => qs[k] + d);
    forall k | 0 <= k < |runs|
      ensures MaximalRunAt(s, runs[k], ps[k])
      ensures ps[k] > d || !IsAsciiDigit(s[d - 1])
    {
      var run, q := runs[k], qs[k];
      assert MaximalRunAt(t, run, q);
      assert s[q + d..q + d + |run|] == t[q..q + |run|];
      if q > 0 {
        assert s[q + d - 1] == t[q - 1];
      } else {
        assert t[0] == run[0];
      }
      if q + |run| < |t| {
        assert s[q + d + |run|] == t[q + |run|];
      }
    }
  }

  /** A maximal run at the start of `s` followed by runs further right. */
  lemma ConsRun(s: string, n: int, runs: seq<string>, rest: seq<int>)
    requires 0 < n <= |s| && (forall i :: 0 <= i < n ==> IsAsciiDigit(s[i]))
    requires n == |s| || !IsAsciiDigit(s[n])
    requires RunsAt(s, runs, rest)
    requires forall k :: 0 <= k < |rest| ==> rest[k] > n
    ensures RunsAt(s, [s[..n]] + runs, [0] + rest)
  {
    var runs', ps := [s[..n]] + runs, [0] + rest;
    assert s[0..n] == s[..n];
    assert MaximalRunAt(s, s[..n], 0);
    forall k | 0 < k < |runs'| ensures MaximalRunAt(s, runs'[k], ps[k]) {
      assert runs'[k] == runs[k - 1] && ps[k] == rest[k - 1];
    }
  }

  /**
    The positions of the runs: each is a maximal run of digits of `s`, and
    they occur left to right without overlapping.
  */
  lemma {:induction false} RunsMaximal(s: string) returns (ps: seq<int>)
    ensures RunsAt(s, Runs(s), ps)
    decreases |s|
  {
    if s == [] {
      ps := [];
    } else if !IsAsciiDigit(s[0]) {
      var qs := RunsMaximal(s[1..]);
      ps := ShiftRuns(s, 1, Runs(s[1..]), qs);
    } else {
      var n := DigitPrefix(s);
      var qs := RunsMaximal(s[n..]);
      var rest := ShiftRuns(s, n, Runs(s[n..]), qs);
      ConsRun(s, n, Runs(s[n..]), rest);
      ps := [0] + rest;
    }
  }

  /**
    Every run is a non-empty string of digits, the runs together are exactly
    the digits of `s`, in order, and each run is maximal: the runs sit at
    increasing, non-overlapping positions, with no digit just before or just
    after any of them.
  */
  lemma {:induction false} RunsSpec(s: string)
    ensures forall k :: 0 <= k < |Runs(s)| ==>
              Runs(s)[k] != [] && forall i :: 0 <= i < |Runs(s)[k]| ==> IsAsciiDigit(Runs(s)[k][i])
    ensures Flatten(Runs(s)) == Filter(s, IsAsciiDigit)
    ensures exists ps :: RunsAt(s, Runs(s), ps)
    decreases |s|
  {
    var ps := RunsMaximal(s);
    if s != [] {
      if !IsAsciiDigit(s[0]) {
        RunsSpec(s[1..]);
      } else {
        var n := DigitPrefix(s);
        RunsSpec(s[n..]);
        assert s == s[..n] + s[n..];
        FilterConcat(s[..n], s[n..], IsAsciiDigit);
        AllDigitsFilter(s[..n]);
        assert Runs(s)[1..] == Runs(s[n..]);
      }
    }
  }

  lemma {:induction false} AllDigitsFilter(d: string)
    requires forall i :: 0 <= i < |d| ==> IsAsciiDigit(d[i])
    ensures Filter(d, IsAsciiDigit) == d
  {
    if d != [] {
      AllDigitsFilter(d[1..]);
    }
  }

  /** Text without digits adds no run. */
  lemma {:induction false} RunsSkipText(p: string, s: string)
    requires forall i :: 0 <= i < |p| ==> !IsAsciiDigit(p[i])
    ensures Runs(p + s) == Runs(s)
  {
    if p != [] {
      assert (p + s)[0] == p[0] && !IsAsciiDigit(p[0]);
      assert Runs(p + s) == Runs((p + s)[1..]);
      assert (p + s)[1..] == p[1..] + s;
      RunsSkipText(p[1..], s);
    } else {
      assert p + s == s;
    }
  }

  /** A block of digits followed by a non-digit (or the end) is one run. */
  lemma RunsDigitBlock(d: string, s: string)
    requires d != [] && forall i :: 0 <= i < |d| ==> IsAsciiDigit(d[i])
    requires s == [] || !IsAsciiDigit(s[0])
    ensures Runs(d + s) == [d] + Runs(s)
  {
    DigitPrefixExact(d + s, |d|);
    assert (d + s)[..|d|] == d && (d + s)[|d|..] == s;
  }

  /** `matcher.find()` in a loop, collecting `matcher.group()`. */
  method FindNumbers(s: string) returns (numbers: seq<string>)
    ensures numbers == Runs(s)
  {
    numbers := [];
    var i := 0;
    while i < |s|
      invariant 0 <= i <= |s|
      invariant numbers + Runs(s[i..]) == Runs(s)
    {
      if IsAsciiDigit(s[i]) {
        var j := i;
        while j < |s| && IsAsciiDigit(s[j])
          invariant i <= j <= |s|
          invariant forall k :: i <= k < j ==> IsAsciiDigit(s[k])
        {
          j := j + 1;
        }
        DigitPrefixExact(s[i..], j - i);
        assert s[i..][..j - i] == s[i..j] && s[i..][j - i..] == s[j..];
        numbers := numbers + [s[i..j]];
        i := j;
      } else {
        assert s[i..][1..] == s[i + 1..];
        i := i + 1;
      }
    }
  }

  // ---------------------------------------------------------------------
  // Checking a response
  // ---------------------------------------------------------------------

  /** `format.format(n)` for one number format. */
  type Format = int -> string

  /** `FORMATS.stream().anyMatch(...)`: some format writes `thread` as `first` and `request` as `second`. */
  function AnyFormatMatches(formats: seq<Format>, thread: int, request: int, first: string, second: string): (r: bool)
    ensures r <==> exists i :: 0 <= i < |formats| && formats[i](thread) == first && formats[i](request) == second
  {
    if formats == [] then false
    else (formats[0](thread) == first && formats[0](request) == second)
         || AnyFormatMatches(formats[1..], thread, request, first, second)
  }

  /** What `isCorrectResponse` decides: exactly two numbers, and some format writes them as `thread` and `request`. */
  function CorrectResponse(response: string, thread: int, request: int, cls: CharClass, formats: seq<Format>): bool {
    var numbers := Runs(Normalized(response, cls));
    |numbers| == 2 && AnyFormatMatches(formats, thread, request, numbers[0], numbers[1])
  }

  /** `isCorrectResponse`. */
  method IsCorrectResponse(response: string, thread: int, request: int, cls: CharClass, formats: seq<Format>)
    returns (r: bool)
    ensures r == CorrectResponse(response, thread, request, cls, formats)
    ensures r ==> exists i :: 0 <= i < |formats| &&
                    [formats[i](thread), formats[i](request)] == Runs(Normalized(response, cls))
  {
    var normalized := NormalizeNumbersInString(response, cls);
    var numbers := FindNumbers(normalized);
    r := |numbers| == 2 && AnyFormatMatches(formats, thread, request, numbers[0], numbers[1]);
    if r {
      var i :| 0 <= i < |formats| && formats[i](thread) == numbers[0] && formats[i](request) == numbers[1];
      assert [formats[i](thread), formats[i](request)] == numbers;
    }
  }

  /** The response to a message whose prefix has no digits contains no digits but those of the two numbers. */
  lemma ResponseDigits(prefix: string, t: nat, q: nat, cls: CharClass)
    requires AsciiExact(cls)
    requires forall i :: 0 <= i < |prefix| ==> !cls.isDigit(prefix[i])
    ensures var text := "Hello, " + prefix;
            && Response(CreateMessage(prefix, t, q)) == text + (Decimal(t) + ("_" + Decimal(q)))
            && (forall i :: 0 <= i < |text| ==> !IsAsciiDigit(text[i]) && !cls.isDigit(text[i]))
  {
    var text := "Hello, " + prefix;
    forall i | 0 <= i < |text| ensures !IsAsciiDigit(text[i]) && !cls.isDigit(text[i]) {
      if i >= 7 {
        assert text[i] == prefix[i - 7];
      }
    }
  }

  /** Every digit of a string made of digit-free text and two numbers is an ASCII digit. */
  lemma OnlyAsciiDigits(text: string, t: nat, q: nat, cls: CharClass)
    requires AsciiExact(cls)
    requires forall i :: 0 <= i < |text| ==> !cls.isDigit(text[i])
    ensures var s := text + (Decimal(t) + ("_" + Decimal(q)));
            forall i :: 0 <= i < |s| ==> cls.isDigit(s[i]) ==> IsAsciiDigit(s[i])
  {
    var s := text + (Decimal(t) + ("_" + Decimal(q)));
    DecimalSpec(t);
    DecimalSpec(q);
    var a, b := |text|, |text| + |Decimal(t)|;
    forall i | 0 <= i < |s| ensures cls.isDigit(s[i]) ==> IsAsciiDigit(s[i]) {
      if i > b {
        assert s[i] == Decimal(q)[i - b - 1];
      } else if i == b {
        assert s[i] == '_';
      } else if i >= a {
        assert s[i] == Decimal(t)[i - a];
      } else {
        assert s[i] == text[i];
      }
    }
  }

  /** Two numbers joined by `_` make two runs. */
  lemma RunsOfNumbers(t: nat, q: nat)
    ensures Runs(Decimal(t) + ("_" + Decimal(q))) == [Decimal(t), Decimal(q)]
  {
    DecimalSpec(t);
    DecimalSpec(q);
    RunsDigitBlock(Decimal(t), "_" + Decimal(q));
    RunsSkipText("_", Decimal(q));
    RunsDigitBlock(Decimal(q), []);
    assert Decimal(q) + [] == Decimal(q);
  }

  /** The runs of the response to a message are the two numbers, when the prefix has no digits. */
  lemma ResponseRuns(prefix: string, t: nat, q: nat, cls: CharClass)
    requires DigitValuesInRange(cls) && AsciiExact(cls)
    requires forall i :: 0 <= i < |prefix| ==> !cls.isDigit(prefix[i])
    ensures Runs(Normalized(Response(CreateMessage(prefix, t, q)), cls)) == [Decimal(t), Decimal(q)]
  {
    var text := "Hello, " + prefix;
    var rest := Decimal(t) + ("_" + Decimal(q));
    ResponseDigits(prefix, t, q, cls);
    OnlyAsciiDigits(text, t, q, cls);
    NormalizedKeepsAscii(text + rest, cls);
    RunsSkipText(text, rest);
    RunsOfNumbers(t, q);
    calc {
      Runs(Normalized(Response(CreateMessage(prefix, t, q)), cls));
      Runs(Normalized(text + rest, cls));
      Runs(text + rest);
      Runs(rest);
      [Decimal(t), Decimal(q)];
    }
  }

  /**
    A client's check accepts the server's response to its own message
    when some format writes numbers in plain decimal; with the plain
    decimal format alone it accepts exactly the thread and request numbers
    the message was built from.
  */
  lemma ResponseAccepted(prefix: string, t: nat, q: nat, cls: CharClass, formats: seq<Format>, thread: int, request: int)
    requires DigitValuesInRange(cls) && AsciiExact(cls)
    requires forall i :: 0 <= i < |prefix| ==> !cls.isDigit(prefix[i])
    ensures (exists i :: 0 <= i < |formats| && formats[i](t) == Decimal(t) && formats[i](q) == Decimal(q)) ==>
              CorrectResponse(Response(CreateMessage(prefix, t, q)), t, q, cls, formats)
    ensures CorrectResponse(Response(CreateMessage(prefix, t, q)), thread, request, cls, [Decimal]) <==>
              thread == t && request == q
  {
    ResponseRuns(prefix, t, q, cls);
    if CorrectResponse(Response(CreateMessage(prefix, t, q)), thread, request, cls, [Decimal]) {
      DecimalInjective(thread, t);
      DecimalInjective(request, q);
    }
  }
}
