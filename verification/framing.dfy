/**
 Telegram framing by line counting (`get_next_message` in src/smart_meter.py).

 The reader appends every line it reads, stripped, to a list that is never
 cleared, and keeps a counter of lines. A line containing a backslash resets
 the counter before it is counted, and reading stops as soon as the counter
 reaches 26. Identification lines that open a telegram hold a backslash on
 some meters (`/ISk5\2MT382-1000`) and not on others (`/KFM5KAIFA-METER`);
 the latter never reset the counter. The serial port is replaced by a finite
 sequence of raw lines; a read that times out is an empty or partial line in
 it. When the sequence runs out before the counter reaches 26 the result is
 `None`.
 */
module Framing {
  import opened Wrappers
  import opened Text

  /** Lines counted from the identification line (inclusive) until reading stops. */
  const MessageLines: nat := 26

  /** A line that resets the counter: it contains a backslash. */
  predicate IsMarker(line: string) {
    '\\' in line
  }

  /** Every raw line stripped, in order. */
  function StripAll(raw: seq<string>): (lines: seq<string>)
    ensures |lines| == |raw|
    ensures forall k :: 0 <= k < |raw| ==> lines[k] == Strip(raw[k])
  {
    seq(|raw|, k requires 0 <= k < |raw| => Strip(raw[k]))
  }

  /** Reading one more raw line adds its stripped form at the end. */
  lemma {:induction false} StripAllSnoc(input: seq<string>, i: nat)
    requires i < |input|
    ensures StripAll(input[..i + 1]) == StripAll(input[..i]) + [Strip(input[i])]
  {
    var a, b := StripAll(input[..i + 1]), StripAll(input[..i]) + [Strip(input[i])];
    assert |a| == |b|;
    forall k | 0 <= k < |a|
      ensures a[k] == b[k]
    {
      if k < i {
        assert input[..i + 1][k] == input[..i][k];
      }
    }
  }

  /** The counter's value after the loop body has run once for each of `lines`. */
  function Counter(lines: seq<string>): nat
    decreases |lines|
  {
    if |lines| == 0 then 0
    else (if IsMarker(lines[|lines| - 1]) then 0 else Counter(lines[..|lines| - 1])) + 1
  }

  /**
   The counter after the first `n` raw lines of `input` have been read. The
   reader tests the stripped line, which holds a backslash exactly when the
   raw line does (`MarkerSurvivesStrip`), so the raw lines are counted here.
   */
  function CounterAfter(input: seq<string>, n: nat): nat
    requires n <= |input|
  {
    Counter(input[..n])
  }

  /** Counting stripped lines is counting the raw lines. */
  lemma {:induction false} CounterOfStripped(raw: seq<string>)
    ensures Counter(StripAll(raw)) == Counter(raw)
    decreases |raw|
  {
    if |raw| > 0 {
      var n := |raw| - 1;
      StripAllSnoc(raw, n);
      assert raw[..n + 1] == raw;
      var lines := StripAll(raw[..n]);
      assert (lines + [Strip(raw[n])])[..|lines|] == lines;
      MarkerSurvivesStrip(raw[n]);
      CounterOfStripped(raw[..n]);
    }
  }

  /**
   `message` is what the reader returns on `input`: the stripped first
   `|message|` lines, after which the counter is 26 and before which it never was.
   */
  predicate IsMessageOf(input: seq<string>, message: seq<string>) {
    && |message| <= |input|
    && message == StripAll(input[..|message|])
    && CounterAfter(input, |message|) == MessageLines
    && forall n :: 0 <= n < |message| ==> CounterAfter(input, n) < MessageLines
  }

  /** Reads lines from `input` until the counter reaches 26, as `get_next_message` does. */
  method NextMessage(input: seq<string>) returns (r: Option<seq<string>>)
    ensures r.Some? ==> IsMessageOf(input, r.value)
    ensures r.None? <==> forall n :: 0 <= n <= |input| ==> CounterAfter(input, n) < MessageLines
  {
    var counter := 0;
    var lines: seq<string> := [];
    var i := 0;
    while counter < MessageLines
      invariant 0 <= i <= |input|
      invariant lines == StripAll(input[..i]) && |lines| == i
      invariant counter == CounterAfter(input, i) <= MessageLines
      invariant forall n :: 0 <= n < i ==> CounterAfter(input, n) < MessageLines
      decreases |input| - i
    {
      if i == |input| {
        NoMessage(input, i);
        return None;
      }
      var line := Strip(input[i]);
      MarkerSurvivesStrip(input[i]);
      if '\\' in line {
        counter := 0;
      }
      ReadOne(input, i);
      StillCounting(input, i);
      lines := lines + [line];
      counter := counter + 1;
      i := i + 1;
    }
    assert input[..|lines|] == input[..i];
    return Some(lines);
  }

  /** Running out of input while still counting: the counter never reached 26. */
  lemma {:induction false} NoMessage(input: seq<string>, i: nat)
    requires i == |input|
    requires forall n :: 0 <= n < i ==> CounterAfter(input, n) < MessageLines
    requires CounterAfter(input, i) < MessageLines
    ensures forall n :: 0 <= n <= |input| ==> CounterAfter(input, n) < MessageLines
  {
    forall n | 0 <= n <= |input|
      ensures CounterAfter(input, n) < MessageLines
    {
      if n < i {
        assert CounterAfter(input, n) < MessageLines;
      }
    }
  }

  /** The counter stayed below 26 for the first `i + 1` prefixes when it did for the first `i` and for the `i`-th. */
  lemma {:induction false} StillCounting(input: seq<string>, i: nat)
    requires i < |input|
    requires forall n :: 0 <= n < i ==> CounterAfter(input, n) < MessageLines
    requires CounterAfter(input, i) < MessageLines
    ensures forall n :: 0 <= n < i + 1 ==> CounterAfter(input, n) < MessageLines
  {
    forall n | 0 <= n < i + 1
      ensures CounterAfter(input, n) < MessageLines
    {
      if n < i {
        assert CounterAfter(input, n) < MessageLines;
      }
    }
  }

  /** One more iteration of the reading loop, in terms of the raw input. */
  lemma {:induction false} ReadOne(input: seq<string>, i: nat)
    requires i < |input|
    ensures StripAll(input[..i + 1]) == StripAll(input[..i]) + [Strip(input[i])]
    ensures CounterAfter(input, i + 1) == (if IsMarker(input[i]) then 0 else CounterAfter(input, i)) + 1
  {
    StripAllSnoc(input, i);
    assert input[..i + 1][..i] == input[..i];
  }

  /**
   What the counter means: the number of lines since the last backslash line,
   that line included, or the number of all lines when there is no such line.
   */
  lemma {:induction false} CounterSinceMarker(lines: seq<string>)
    ensures Counter(lines) <= |lines|
    ensures |lines| > 0 ==> Counter(lines) > 0
    ensures forall j :: |lines| - Counter(lines) < j < |lines| ==> !IsMarker(lines[j])
    ensures Counter(lines) < |lines| ==> IsMarker(lines[|lines| - Counter(lines)])
    decreases |lines|
  {
    if |lines| > 0 {
      var init := lines[..|lines| - 1];
      CounterSinceMarker(init);
      if !IsMarker(lines[|lines| - 1]) {
        assert forall j :: 0 <= j < |init| ==> init[j] == lines[j];
      }
    }
  }

  /**
   The shape of a framed message: at least 26 lines; none of the last 25 holds
   a backslash; when some line does, the last such line is the 26th from the
   end; when none does, the message is exactly 26 lines.
   */
  lemma {:induction false} MessageShape(input: seq<string>, message: seq<string>)
    requires IsMessageOf(input, message)
    ensures |message| >= MessageLines
    ensures forall j :: |message| - MessageLines < j < |message| ==> !IsMarker(message[j])
    ensures (exists j :: 0 <= j < |message| && IsMarker(message[j])) ==> IsMarker(message[|message| - MessageLines])
    ensures (forall j :: 0 <= j < |message| ==> !IsMarker(message[j])) ==> |message| == MessageLines
  {
    assert message == StripAll(input[..|message|]);
    CounterOfStripped(input[..|message|]);
    assert Counter(message) == MessageLines;
    CounterSinceMarker(message);
    if exists j :: 0 <= j < |message| && IsMarker(message[j]) {
      var j :| 0 <= j < |message| && IsMarker(message[j]);
      if |message| == MessageLines {
        assert j == 0;
      }
    }
  }

  /** The contract of `NextMessage` leaves no choice: at most one message fits an input. */
  lemma {:induction false} MessageUnique(input: seq<string>, a: seq<string>, b: seq<string>)
    requires IsMessageOf(input, a) && IsMessageOf(input, b)
    ensures a == b
  {
    assert |a| == |b|;
  }

  /**
   An identification line without a backslash, as Kaifa meters send, is
   counted like any other line; one with a backslash restarts the count.
   */
  lemma {:induction false} HeaderCounting(lines: seq<string>)
    ensures !IsMarker("/KFM5KAIFA-METER") && IsMarker("/ISk5\\2MT382-1000")
    ensures Counter(lines + ["/KFM5KAIFA-METER"]) == Counter(lines) + 1
    ensures Counter(lines + ["/ISk5\\2MT382-1000"]) == 1
  {
    assert (lines + ["/KFM5KAIFA-METER"])[..|lines|] == lines;
    assert "/ISk5\\2MT382-1000"[5] == '\\';
  }

  /** Stripping never removes a backslash, so raw and stripped lines reset the counter alike. */
  lemma {:induction false} MarkerSurvivesStrip(raw: string)
    ensures IsMarker(Strip(raw)) <==> IsMarker(raw)
  {
    TrimKeeps(raw, '\\', StrSpaces);
  }
}
