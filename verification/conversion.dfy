/**
 Field extraction (`convert_message_to_data` in src/smart_meter.py).

 The lines of a telegram are scanned in order. A line that starts with one
 of four OBIS reduced identifiers has a fixed character range cut out of it
 (clamped like a Python slice), parsed as a number and stored under a named
 key; a later line with the same identifier overwrites the earlier value. An
 unparsable slice aborts the whole conversion with a `ValueError`. At the end
 the two tariff readings are added unconditionally, so a telegram lacking
 either one fails with a `KeyError` naming the first missing key.
 */
module Conversion {
  import opened Wrappers
  import opened Text
  import opened Decimal

  /** The decoded readings, keyed by field name. */
  type Reading = map<string, real>

  const LowTariff := "meter_low_tariff"
  const NormalTariff := "meter_normal_tariff"
  const EnergyUsage := "current_energy_usage"
  const GasUsage := "current_gas_usage"
  const TotalTariff := "meter_total_tariff"

  /** The keys the four identifier blocks store. */
  const FieldKeys: set<string> := {LowTariff, NormalTariff, EnergyUsage, GasUsage}

  /** Every key a successful conversion may produce. */
  const OutputKeys: set<string> := FieldKeys + {TotalTariff}

  /** One `if line.startswith(prefix)` block: the slice `line[lo:hi]` is stored under `key`. */
  datatype FieldRule = FieldRule(prefix: string, lo: nat, hi: nat, key: string)

  /** OBIS reduced identifiers: delivered energy, tariff 1 and tariff 2; actual power; gas meter reading. */
  const LowPrefix := "1-0:1.8.1"
  const NormalPrefix := "1-0:1.8.2"
  const EnergyPrefix := "1-0:1.7.0"
  const GasPrefix := "0-1:24.2.1"

  /** The four blocks, in the order the source tests them. */
  const Rules: seq<FieldRule> := [
    FieldRule(LowPrefix, 10, 20, LowTariff),
    FieldRule(NormalPrefix, 10, 20, NormalTariff),
    FieldRule(EnergyPrefix, 10, 16, EnergyUsage),
    FieldRule(GasPrefix, 26, 35, GasUsage)
  ]

  /** Python's exception for the conversion: `ValueError` from `float`, `KeyError` from the final sum. */
  datatype ConvertError = ValueError(text: string) | KeyError(key: string)

  /** The text a rule cuts out of a line. */
  function FieldText(rule: FieldRule, line: string): string {
    Slice(line, rule.lo, rule.hi)
  }

  /** The number a rule reads from a line, or `None` when `float` would raise. */
  function FieldValue(rule: FieldRule, line: string): Option<real> {
    ParseFloat(FieldText(rule, line))
  }

  /** The effect of one rule whose prefix the line starts with. */
  function Store(rule: FieldRule, data: Reading, line: string): Result<Reading, ConvertError> {
    match FieldValue(rule, line)
    case None => Failure(ValueError(FieldText(rule, line)))
    case Some(v) => Success(data[rule.key := v])
  }

  /** The `if` blocks of `rules` applied to one line, in order, stopping at the first error. */
  function ApplyRules(rules: seq<FieldRule>, data: Reading, line: string): Result<Reading, ConvertError>
    decreases |rules|
  {
    if |rules| == 0 then Success(data)
    else
      var step := if StartsWith(line, rules[0].prefix) then Store(rules[0], data, line) else Success(data);
      match step
      case Failure(e) => Failure(e)
      case Success(d) => ApplyRules(rules[1..], d, line)
  }

  /** No line starts with two of the identifiers, and no two rules share a key. */
  lemma {:induction false} RulesDisjoint(line: string)
    ensures forall a, b :: 0 <= a < b < |Rules| ==> !(StartsWith(line, Rules[a].prefix) && StartsWith(line, Rules[b].prefix))
    ensures forall a, b :: 0 <= a < |Rules| && 0 <= b < |Rules| && a != b ==> Rules[a].key != Rules[b].key
    ensures forall a :: 0 <= a < |Rules| ==> Rules[a].key in FieldKeys
  {
    forall a, b | 0 <= a < b < |Rules|
      ensures !(StartsWith(line, Rules[a].prefix) && StartsWith(line, Rules[b].prefix))
    {
      var p, q := Rules[a].prefix, Rules[b].prefix;
      assert p[0] != q[0] || p[8] != q[8];
      if StartsWith(line, Rules[a].prefix) && StartsWith(line, Rules[b].prefix) {
        CommonPrefix(line, p, q);
        assert false;
      }
    }
  }

  /** Two prefixes of the same line agree wherever both are defined. */
  lemma {:induction false} CommonPrefix(line: string, p: string, q: string)
    requires StartsWith(line, p) && StartsWith(line, q)
    ensures forall i :: 0 <= i < |p| && i < |q| ==> p[i] == q[i]
  {
    assert forall i :: 0 <= i < |p| ==> p[i] == line[i];
    assert forall i :: 0 <= i < |q| ==> q[i] == line[i];
  }

  /**
   One pass of the loop body: a line that starts with no identifier leaves the
   reading unchanged; otherwise exactly one rule applies.
   */
  function ConvertLine(data: Reading, line: string): (r: Result<Reading, ConvertError>)
    ensures (forall k :: 0 <= k < |Rules| ==> !StartsWith(line, Rules[k].prefix)) ==> r == Success(data)
    ensures forall k :: 0 <= k < |Rules| && StartsWith(line, Rules[k].prefix) ==> r == Store(Rules[k], data, line)
  {
    RulesDisjoint(line);
    ApplyRulesAtMostOne(Rules, data, line);
    ApplyRules(Rules, data, line)
  }

  /** When at most one of `rules` matches a line, applying them all is applying that one. */
  lemma {:induction false} ApplyRulesAtMostOne(rules: seq<FieldRule>, data: Reading, line: string)
    requires forall a, b :: 0 <= a < b < |rules| ==> !(StartsWith(line, rules[a].prefix) && StartsWith(line, rules[b].prefix))
    ensures (forall k :: 0 <= k < |rules| ==> !StartsWith(line, rules[k].prefix)) ==> ApplyRules(rules, data, line) == Success(data)
    ensures forall k :: 0 <= k < |rules| && StartsWith(line, rules[k].prefix) ==> ApplyRules(rules, data, line) == Store(rules[k], data, line)
    decreases |rules|
  {
    if |rules| > 0 {
      var rest := rules[1..];
      assert forall k :: 0 <= k < |rest| ==> rest[k] == rules[k + 1];
      if StartsWith(line, rules[0].prefix) {
        match Store(rules[0], data, line)
        case Failure(_) =>
        case Success(d) =>
          assert forall k :: 0 <= k < |rest| ==> !StartsWith(line, rest[k].prefix) by {
            forall k | 0 <= k < |rest|
              ensures !StartsWith(line, rest[k].prefix)
            {
              assert rest[k] == rules[k + 1];
            }
          }
          ApplyRulesAtMostOne(rest, d, line);
      } else {
        ApplyRulesAtMostOne(rest, data, line);
        forall k | 0 <= k < |rules| && StartsWith(line, rules[k].prefix)
          ensures ApplyRules(rules, data, line) == Store(rules[k], data, line)
        {
          assert rest[k - 1] == rules[k];
        }
      }
    }
  }

  /** Every field the line carries (it starts with the rule's identifier) parses as a number. */
  predicate LineParses(line: string) {
    forall k :: 0 <= k < |Rules| && StartsWith(line, Rules[k].prefix) ==> FieldValue(Rules[k], line).Some?
  }

  /** Every field carried by every line parses. */
  predicate AllParse(lines: seq<string>) {
    forall i :: 0 <= i < |lines| ==> LineParses(lines[i])
  }

  /** Some line starts with `prefix`. */
  predicate Mentions(lines: seq<string>, prefix: string) {
    exists i :: 0 <= i < |lines| && StartsWith(lines[i], prefix)
  }

  /** Line `i` is the last line that starts with `prefix`. */
  predicate IsLastMatch(lines: seq<string>, prefix: string, i: int) {
    && 0 <= i < |lines|
    && StartsWith(lines[i], prefix)
    && forall j :: i < j < |lines| ==> !StartsWith(lines[j], prefix)
  }

  /** Each field key present in `data` holds the value read from the last line carrying its identifier. */
  predicate HoldsLastValues(lines: seq<string>, data: Reading) {
    forall k, i {:trigger IsLastMatch(lines, Rules[k].prefix, i)} ::
      0 <= k < |Rules| && 0 <= i < |lines| && IsLastMatch(lines, Rules[k].prefix, i) ==>
      Rules[k].key in data && Some(data[Rules[k].key]) == FieldValue(Rules[k], lines[i])
  }

  /** Line `i` carries field `k` and that field is the first in the message that does not parse. */
  predicate IsFirstBadField(lines: seq<string>, i: int, k: int) {
    && 0 <= i < |lines|
    && 0 <= k < |Rules|
    && StartsWith(lines[i], Rules[k].prefix)
    && FieldValue(Rules[k], lines[i]).None?
    && AllParse(lines[..i])
  }

  /** One pass of the loop body fails exactly when a field the line carries does not parse, and reports its slice. */
  lemma {:induction false} LineOutcome(data: Reading, line: string)
    ensures ConvertLine(data, line).Success? <==> LineParses(line)
    ensures ConvertLine(data, line).Failure? ==>
      exists k :: && 0 <= k < |Rules| && StartsWith(line, Rules[k].prefix)
                  && FieldValue(Rules[k], line).None?
                  && ConvertLine(data, line).error == ValueError(FieldText(Rules[k], line))
  {
    RulesDisjoint(line);
    if k :| 0 <= k < |Rules| && StartsWith(line, Rules[k].prefix) {
      assert ConvertLine(data, line) == Store(Rules[k], data, line);
    }
  }

  /** What a successful pass of the loop body does to the reading, key by key. */
  lemma {:induction false} LineEffect(data: Reading, line: string)
    requires ConvertLine(data, line).Success?
    ensures var out := ConvertLine(data, line).value;
      && out.Keys <= data.Keys + FieldKeys
      && (forall key :: key in data && key !in FieldKeys ==> key in out && out[key] == data[key])
      && forall k :: 0 <= k < |Rules| ==>
           if StartsWith(line, Rules[k].prefix) then
             Rules[k].key in out && Some(out[Rules[k].key]) == FieldValue(Rules[k], line)
           else
             (Rules[k].key in out <==> Rules[k].key in data) && (Rules[k].key in data ==> out[Rules[k].key] == data[Rules[k].key])
  {
    if m :| 0 <= m < |Rules| && StartsWith(line, Rules[m].prefix) {
      StoreEffect(data, line, m);
    }
  }

  /** The single rule `m` that a line matches stores its value and touches no other key. */
  lemma {:induction false} StoreEffect(data: Reading, line: string, m: nat)
    requires m < |Rules| && StartsWith(line, Rules[m].prefix) && FieldValue(Rules[m], line).Some?
    ensures ConvertLine(data, line) == Success(data[Rules[m].key := FieldValue(Rules[m], line).value])
    ensures Rules[m].key in FieldKeys
    ensures forall k :: 0 <= k < |Rules| && k != m ==> !StartsWith(line, Rules[k].prefix) && Rules[k].key != Rules[m].key
  {
    assert ConvertLine(data, line) == Store(Rules[m], data, line);
    RulesDisjoint(line);
    assert Rules[m] in Rules;
  }

  /** The `for` loop: every line of the message, in order, stopping at the first error. */
  function Collect(lines: seq<string>): (r: Result<Reading, ConvertError>)
    ensures r.Success? ==> r.value.Keys <= FieldKeys
    decreases |lines|
  {
    if |lines| == 0 then Success(map[])
    else
      match Collect(lines[..|lines| - 1])
      case Failure(e) => Failure(e)
      case Success(d) =>
        var r := ConvertLine(d, lines[|lines| - 1]);
        if r.Success? then LineEffect(d, lines[|lines| - 1]); r else r
  }

  /** One more line after a successful prefix is one more `ConvertLine`. */
  lemma {:induction false} CollectStep(init: seq<string>, last: string, data: Reading)
    requires Collect(init) == Success(data)
    ensures Collect(init + [last]) == ConvertLine(data, last)
  {
    assert (init + [last])[..|init|] == init;
  }

  /** A failed prefix fails the whole loop with the same error. */
  lemma {:induction false} CollectStepFailure(init: seq<string>, last: string)
    requires Collect(init).Failure?
    ensures Collect(init + [last]) == Collect(init)
  {
    assert (init + [last])[..|init|] == init;
  }

  /** The loop runs to the end exactly when every carried field parses. */
  lemma {:induction false} CollectSucceeds(lines: seq<string>)
    ensures Collect(lines).Success? <==> AllParse(lines)
    decreases |lines|
  {
    if |lines| > 0 {
      var init, last := lines[..|lines| - 1], lines[|lines| - 1];
      assert init + [last] == lines;
      CollectSucceeds(init);
      assert AllParse(lines) <==> AllParse(init) && LineParses(last) by {
        assert forall i :: 0 <= i < |init| ==> init[i] == lines[i];
      }
      match Collect(init)
      case Success(d) =>
        CollectStep(init, last, d);
        LineOutcome(d, last);
      case Failure(_) =>
        CollectStepFailure(init, last);
    }
  }

  /** `error` is the `ValueError` for the first field of the message that does not parse. */
  predicate ReportsFirstBad(lines: seq<string>, error: ConvertError) {
    exists i, k :: 0 <= i < |lines| && 0 <= k < |Rules| && IsFirstBadField(lines, i, k) && error == ValueError(FieldText(Rules[k], lines[i]))
  }

  /** A failing loop reports the slice of the first field that does not parse. */
  lemma {:induction false} CollectFirstError(lines: seq<string>)
    requires Collect(lines).Failure?
    ensures ReportsFirstBad(lines, Collect(lines).error)
    decreases |lines|
  {
    var init, last := lines[..|lines| - 1], lines[|lines| - 1];
    match Collect(init)
    case Failure(e) =>
      CollectFirstError(init);
      var i, k :| IsFirstBadField(init, i, k) && e == ValueError(FieldText(Rules[k], init[i]));
      FirstBadKept(init, lines, i, k);
    case Success(d) =>
      LineOutcome(d, last);
      CollectSucceeds(init);
      var k :| && 0 <= k < |Rules| && StartsWith(last, Rules[k].prefix)
               && FieldValue(Rules[k], last).None?
               && ConvertLine(d, last).error == ValueError(FieldText(Rules[k], last));
      assert lines[..|lines| - 1] == init;
      assert IsFirstBadField(lines, |lines| - 1, k);
  }

  /** Reading further lines does not change which field was the first bad one. */
  lemma {:induction false} FirstBadKept(init: seq<string>, lines: seq<string>, i: int, k: int)
    requires IsFirstBadField(init, i, k) && init <= lines
    ensures IsFirstBadField(lines, i, k) && lines[i] == init[i]
  {
    assert lines[..i] == init[..i];
  }

  /** After a successful loop, a field key is present exactly when some line carries its identifier. */
  lemma {:induction false} CollectKeys(lines: seq<string>)
    requires Collect(lines).Success?
    ensures forall k :: 0 <= k < |Rules| ==> (Rules[k].key in Collect(lines).value <==> Mentions(lines, Rules[k].prefix))
    decreases |lines|
  {
    if |lines| > 0 {
      var init, last := lines[..|lines| - 1], lines[|lines| - 1];
      var d := Collect(init).value;
      var out := Collect(lines).value;
      CollectKeys(init);
      LineEffect(d, last);
      forall k | 0 <= k < |Rules|
        ensures Rules[k].key in out <==> Mentions(lines, Rules[k].prefix)
      {
        var p := Rules[k].prefix;
        if StartsWith(last, p) {
          assert StartsWith(lines[|lines| - 1], p);
        } else {
          MentionsSnoc(init, last, p);
          assert lines == init + [last];
        }
      }
    }
  }

  /** A line appended at the end adds to the mentions only through itself. */
  lemma {:induction false} MentionsSnoc(init: seq<string>, last: string, p: string)
    ensures Mentions(init + [last], p) <==> Mentions(init, p) || StartsWith(last, p)
  {
    var lines := init + [last];
    if Mentions(init, p) {
      var i :| 0 <= i < |init| && StartsWith(init[i], p);
      assert lines[i] == init[i];
    }
    if StartsWith(last, p) {
      assert lines[|init|] == last;
    }
    if Mentions(lines, p) {
      var i :| 0 <= i < |lines| && StartsWith(lines[i], p);
      if i < |init| {
        assert init[i] == lines[i];
      }
    }
  }

  /** After a successful loop, each present field holds the value read from the last line that carries it. */
  lemma {:induction false} CollectLastWins(lines: seq<string>)
    requires Collect(lines).Success?
    ensures HoldsLastValues(lines, Collect(lines).value)
    decreases |lines|
  {
    if |lines| > 0 {
      var init, last := lines[..|lines| - 1], lines[|lines| - 1];
      assert init + [last] == lines;
      var d := Collect(init).value;
      CollectLastWins(init);
      CollectStep(init, last, d);
      LastWinsStep(init, last, d, Collect(lines).value);
    }
  }

  /** One more successful line keeps every field at the value of its last carrier. */
  lemma {:induction false} LastWinsStep(init: seq<string>, last: string, d: Reading, out: Reading)
    requires HoldsLastValues(init, d) && ConvertLine(d, last) == Success(out)
    ensures HoldsLastValues(init + [last], out)
  {
    var lines := init + [last];
    LineEffect(d, last);
    forall k, i | 0 <= k < |Rules| && 0 <= i < |lines| && IsLastMatch(lines, Rules[k].prefix, i)
      ensures Rules[k].key in out && Some(out[Rules[k].key]) == FieldValue(Rules[k], lines[i])
    {
      if i < |init| {
        assert !StartsWith(lines[|init|], Rules[k].prefix);
        assert IsLastMatch(init, Rules[k].prefix, i) by {
          assert forall j :: 0 <= j < |init| ==> init[j] == lines[j];
        }
      }
    }
    assert HoldsLastValues(lines, out);
  }

  /**
   The last statement of the conversion: the two tariff readings are added
   unconditionally; a missing one raises `KeyError`, the low tariff being
   looked up first. Every other key keeps its value.
   */
  function AddTotal(data: Reading): (r: Result<Reading, ConvertError>)
    ensures r.Success? <==> LowTariff in data && NormalTariff in data
    ensures r.Failure? ==> r.error == KeyError(if LowTariff !in data then LowTariff else NormalTariff)
    ensures r.Success? ==>
      && r.value.Keys == data.Keys + {TotalTariff}
      && r.value[TotalTariff] == data[LowTariff] + data[NormalTariff]
      && forall key :: key in data && key != TotalTariff ==> r.value[key] == data[key]
  {
    if LowTariff !in data then Failure(KeyError(LowTariff))
    else if NormalTariff !in data then Failure(KeyError(NormalTariff))
    else Success(data[TotalTariff := data[LowTariff] + data[NormalTariff]])
  }

  /**
   `convert_message_to_data`: the loop over the message followed by the
   unconditional sum of the two tariff readings.
   */
  function Convert(message: seq<string>): (r: Result<Reading, ConvertError>)
    ensures r.Success? ==>
      && r.value.Keys <= OutputKeys
      && LowTariff in r.value && NormalTariff in r.value && TotalTariff in r.value
      && r.value[TotalTariff] == r.value[LowTariff] + r.value[NormalTariff]
  {
    match Collect(message)
    case Failure(e) => Failure(e)
    case Success(d) => AddTotal(d)
  }

  /**
   When the conversion succeeds and how it fails, in terms of the message
   alone: it succeeds exactly when every carried field parses and both
   tariffs are present; the first unparsable field raises `ValueError`;
   otherwise a missing tariff raises `KeyError`, the low tariff first.
   */
  lemma {:induction false} ConvertOutcome(message: seq<string>)
    ensures Convert(message).Success? <==> AllParse(message) && Mentions(message, LowPrefix) && Mentions(message, NormalPrefix)
    ensures !AllParse(message) ==> Convert(message).Failure? && ReportsFirstBad(message, Convert(message).error)
    ensures AllParse(message) && !Mentions(message, LowPrefix) ==> Convert(message) == Failure(KeyError(LowTariff))
    ensures AllParse(message) && Mentions(message, LowPrefix) && !Mentions(message, NormalPrefix) ==>
      Convert(message) == Failure(KeyError(NormalTariff))
  {
    CollectSucceeds(message);
    match Collect(message)
    case Failure(e) =>
      CollectFirstError(message);
    case Success(d) =>
      CollectKeys(message);
      assert Rules[0].key == LowTariff && Rules[0].prefix == LowPrefix;
      assert Rules[1].key == NormalTariff && Rules[1].prefix == NormalPrefix;
      assert LowTariff in d <==> Mentions(message, LowPrefix);
      assert NormalTariff in d <==> Mentions(message, NormalPrefix);
  }

  /**
   What a successful conversion holds: a field key is present exactly when
   some line carries its identifier, and its value is read from the last
   such line.
   */
  lemma {:induction false} ConvertFields(message: seq<string>)
    requires Convert(message).Success?
    ensures forall k :: 0 <= k < |Rules| ==> (Rules[k].key in Convert(message).value <==> Mentions(message, Rules[k].prefix))
    ensures HoldsLastValues(message, Convert(message).value)
  {
    assert Collect(message).Success?;
    var d := Collect(message).value;
    assert Convert(message) == AddTotal(d);
    CollectKeys(message);
    CollectLastWins(message);
    TotalKeepsFields(message, d, Convert(message).value);
  }

  /** Adding the total, which is not a field key, leaves every field as it was. */
  lemma {:induction false} TotalKeepsFields(lines: seq<string>, data: Reading, out: Reading)
    requires HoldsLastValues(lines, data)
    requires forall k :: 0 <= k < |Rules| ==> (Rules[k].key in data <==> Mentions(lines, Rules[k].prefix))
    requires out.Keys == data.Keys + {TotalTariff}
    requires forall key :: key in data && key != TotalTariff ==> out[key] == data[key]
    ensures HoldsLastValues(lines, out)
    ensures forall k :: 0 <= k < |Rules| ==> (Rules[k].key in out <==> Mentions(lines, Rules[k].prefix))
  {
    assert forall k :: 0 <= k < |Rules| ==> Rules[k].key != TotalTariff;
    forall k, i | 0 <= k < |Rules| && 0 <= i < |lines| && IsLastMatch(lines, Rules[k].prefix, i)
      ensures Rules[k].key in out && Some(out[Rules[k].key]) == FieldValue(Rules[k], lines[i])
    {
      assert Rules[k].key in data;
    }
  }

  /** The line starts with none of the four identifiers. */
  predicate Unrelated(line: string) {
    forall k :: 0 <= k < |Rules| ==> !StartsWith(line, Rules[k].prefix)
  }

  /** Appending a non-empty `b` is appending all but its last line, then that line. */
  lemma {:induction false} SplitLast(p: seq<string>, b: seq<string>)
    requires |b| > 0
    ensures p + b == (p + b[..|b| - 1]) + [b[|b| - 1]]
  {
    assert b == b[..|b| - 1] + [b[|b| - 1]];
  }

  /** A line that carries no identifier can be dropped from anywhere in the loop's input. */
  lemma {:induction false} CollectIgnores(a: seq<string>, line: string, b: seq<string>)
    requires Unrelated(line)
    ensures Collect(a + [line] + b) == Collect(a + b)
    decreases |b|
  {
    if |b| == 0 {
      assert a + [line] + b == a + [line] && a + b == a;
      match Collect(a)
      case Failure(_) => CollectStepFailure(a, line);
      case Success(d) =>
        CollectStep(a, line, d);
        assert ConvertLine(d, line) == Success(d);
    } else {
      var init, x := b[..|b| - 1], b[|b| - 1];
      CollectIgnores(a, line, init);
      SplitLast(a + [line], b);
      SplitLast(a, b);
      match Collect(a + init)
      case Failure(_) =>
        CollectStepFailure(a + [line] + init, x);
        CollectStepFailure(a + init, x);
      case Success(d) =>
        CollectStep(a + [line] + init, x, d);
        CollectStep(a + init, x, d);
    }
  }

  /** Lines that carry none of the four identifiers do not affect the conversion. */
  lemma {:induction false} UnrelatedLineIgnored(a: seq<string>, line: string, b: seq<string>)
    requires Unrelated(line)
    ensures Convert(a + [line] + b) == Convert(a + b)
  {
    CollectIgnores(a, line, b);
  }

  /** The reading layout of an energy register: six integer and three decimal digits. */
  predicate IsRegisterNumber(whole: string, frac: string) {
    |whole| == 6 && |frac| == 3 && AllDigits(whole) && AllDigits(frac)
  }

  /** An energy register line in the P1 layout: `id(IIIIII.FFF*unit)`. */
  function RegisterLine(id: string, whole: string, frac: string, unit: string): string {
    id + "(" + whole + "." + frac + "*" + unit + ")"
  }

  /** A register line under either tariff identifier is read back exactly by the tariff slice `[10:20]`. */
  lemma {:induction false} RegisterLineValue(k: nat, prefix: string, whole: string, frac: string, unit: string)
    requires k < 2 && prefix == Rules[k].prefix && IsRegisterNumber(whole, frac)
    ensures StartsWith(RegisterLine(prefix, whole, frac, unit), prefix)
    ensures FieldText(Rules[k], RegisterLine(prefix, whole, frac, unit)) == whole + "." + frac
    ensures FieldValue(Rules[k], RegisterLine(prefix, whole, frac, unit)) == Some(FixedValue(whole, frac))
  {
    var number := whole + "." + frac;
    var line := RegisterLine(prefix, whole, frac, unit);
    assert |prefix| == 9 && |number| == 10;
    assert line == prefix + "(" + number + ("*" + unit + ")");
    assert line[..9] == prefix;
    assert line[10..20] == number;
    assert FieldText(Rules[k], line) == number;
    ParseFixedText(whole, frac);
  }

  /** None of `lines` carries any of the four identifiers. */
  predicate AllUnrelated(lines: seq<string>) {
    forall j :: 0 <= j < |lines| ==> Unrelated(lines[j])
  }

  /** Lines `i1` and `i2` carry the low and the normal tariff; every other line carries no identifier. */
  predicate TwoRegisterLayout(m: seq<string>, i1: int, i2: int) {
    && 0 <= i1 < i2 < |m|
    && StartsWith(m[i1], LowPrefix) && StartsWith(m[i2], NormalPrefix)
    && forall j :: 0 <= j < |m| && j != i1 && j != i2 ==> Unrelated(m[j])
  }

  /** The telegram `a + [l1] + b + [l2] + c` has the two-register layout when `a`, `b` and `c` carry no identifier. */
  lemma {:induction false} TelegramLayout(a: seq<string>, l1: string, b: seq<string>, l2: string, c: seq<string>)
    requires AllUnrelated(a) && AllUnrelated(b) && AllUnrelated(c)
    requires StartsWith(l1, LowPrefix) && StartsWith(l2, NormalPrefix)
    ensures var m := a + [l1] + b + [l2] + c;
      TwoRegisterLayout(m, |a|, |a| + 1 + |b|) && m[|a|] == l1 && m[|a| + 1 + |b|] == l2
  {
    var m := a + [l1] + b + [l2] + c;
    var i1, i2 := |a|, |a| + 1 + |b|;
    forall j | 0 <= j < |m| && j != i1 && j != i2
      ensures Unrelated(m[j])
    {
      if j < i1 {
        assert m[j] == a[j];
      } else if j < i2 {
        assert m[j] == b[j - i1 - 1];
      } else {
        assert m[j] == c[j - i2 - 1];
      }
    }
  }

  /** In the two-register layout every field parses, both tariffs occur, and no other identifier does. */
  lemma {:induction false} TwoRegisterScan(m: seq<string>, i1: int, i2: int)
    requires TwoRegisterLayout(m, i1, i2)
    requires FieldValue(Rules[0], m[i1]).Some? && FieldValue(Rules[1], m[i2]).Some?
    ensures AllParse(m) && Mentions(m, LowPrefix) && Mentions(m, NormalPrefix)
    ensures !Mentions(m, Rules[2].prefix) && !Mentions(m, Rules[3].prefix)
    ensures IsLastMatch(m, Rules[0].prefix, i1) && IsLastMatch(m, Rules[1].prefix, i2)
  {
    assert Rules[0].prefix == LowPrefix && Rules[1].prefix == NormalPrefix;
    RulesDisjoint(m[i1]);
    RulesDisjoint(m[i2]);
    forall j | 0 <= j < |m|
      ensures LineParses(m[j]) && !StartsWith(m[j], Rules[2].prefix) && !StartsWith(m[j], Rules[3].prefix)
    {
      if j != i1 && j != i2 {
        assert Unrelated(m[j]);
      }
    }
  }

  /**
   A telegram in the two-register layout converts to the two tariff readings
   and their sum, and to nothing else.
   */
  lemma {:induction false} TwoRegisterReading(m: seq<string>, i1: int, i2: int, low: real, normal: real)
    requires TwoRegisterLayout(m, i1, i2)
    requires FieldValue(Rules[0], m[i1]) == Some(low) && FieldValue(Rules[1], m[i2]) == Some(normal)
    ensures Convert(m) == Success(map[LowTariff := low, NormalTariff := normal, TotalTariff := low + normal])
  {
    assert Convert(m).Success? by {
      TwoRegisterScan(m, i1, i2);
      ConvertOutcome(m);
    }
    var out := Convert(m).value;
    TwoRegisterFields(m, i1, i2, low, normal);
    assert out.Keys == {LowTariff, NormalTariff, TotalTariff};
    TariffReading(out, low, normal);
  }

  /** The fields of a converted two-register telegram: both tariffs as read, no usage fields. */
  lemma {:induction false} TwoRegisterFields(m: seq<string>, i1: int, i2: int, low: real, normal: real)
    requires TwoRegisterLayout(m, i1, i2) && Convert(m).Success?
    requires FieldValue(Rules[0], m[i1]) == Some(low) && FieldValue(Rules[1], m[i2]) == Some(normal)
    ensures var out := Convert(m).value;
      out[LowTariff] == low && out[NormalTariff] == normal && EnergyUsage !in out && GasUsage !in out
  {
    TwoRegisterScan(m, i1, i2);
    ConvertFields(m);
    assert Rules[0].key == LowTariff && Rules[1].key == NormalTariff;
    assert Rules[2].key == EnergyUsage && Rules[3].key == GasUsage;
  }

  /** A reading holding exactly the two tariffs and their total is the three-entry map. */
  lemma {:induction false} TariffReading(out: Reading, low: real, normal: real)
    requires out.Keys == {LowTariff, NormalTariff, TotalTariff}
    requires out[LowTariff] == low && out[NormalTariff] == normal && out[TotalTariff] == low + normal
    ensures out == map[LowTariff := low, NormalTariff := normal, TotalTariff := low + normal]
  {
    var expected := map[LowTariff := low, NormalTariff := normal, TotalTariff := low + normal];
    assert out.Keys == expected.Keys;
    forall key | key in out
      ensures out[key] == expected[key]
    {
    }
  }

  /**
   A telegram whose only identified lines are one low and one normal tariff
   register, in that order, converts to those two readings and their exact
   sum, whatever unidentified lines surround them.
   */
  lemma {:induction false} TariffTelegram(a: seq<string>, lowLine: string, lowWhole: string, lowFrac: string, lowUnit: string,
                                          b: seq<string>, normalLine: string, normalWhole: string, normalFrac: string, normalUnit: string,
                                          c: seq<string>, low: real, normal: real)
    requires AllUnrelated(a) && AllUnrelated(b) && AllUnrelated(c)
    requires IsRegisterNumber(lowWhole, lowFrac) && lowLine == RegisterLine(LowPrefix, lowWhole, lowFrac, lowUnit)
    requires IsRegisterNumber(normalWhole, normalFrac) && normalLine == RegisterLine(NormalPrefix, normalWhole, normalFrac, normalUnit)
    requires low == FixedValue(lowWhole, lowFrac) && normal == FixedValue(normalWhole, normalFrac)
    ensures Convert(a + [lowLine] + b + [normalLine] + c)
      == Success(map[LowTariff := low, NormalTariff := normal, TotalTariff := low + normal])
  {
    TariffLines(lowWhole, lowFrac, lowUnit, normalWhole, normalFrac, normalUnit);
    RegisterTelegram(a, lowLine, b, normalLine, c, low, normal);
  }

  /** A low and a normal tariff register line carry their identifiers and read back as their values. */
  lemma {:induction false} TariffLines(lowWhole: string, lowFrac: string, lowUnit: string,
                                       normalWhole: string, normalFrac: string, normalUnit: string)
    requires IsRegisterNumber(lowWhole, lowFrac) && IsRegisterNumber(normalWhole, normalFrac)
    ensures StartsWith(RegisterLine(LowPrefix, lowWhole, lowFrac, lowUnit), LowPrefix)
    ensures FieldValue(Rules[0], RegisterLine(LowPrefix, lowWhole, lowFrac, lowUnit)) == Some(FixedValue(lowWhole, lowFrac))
    ensures StartsWith(RegisterLine(NormalPrefix, normalWhole, normalFrac, normalUnit), NormalPrefix)
    ensures FieldValue(Rules[1], RegisterLine(NormalPrefix, normalWhole, normalFrac, normalUnit)) == Some(FixedValue(normalWhole, normalFrac))
  {
    RegisterLineValue(0, LowPrefix, lowWhole, lowFrac, lowUnit);
    RegisterLineValue(1, NormalPrefix, normalWhole, normalFrac, normalUnit);
  }

  /** The two tariff lines of `a + [l1] + b + [l2] + c`, surrounded by unidentified lines, make the whole reading. */
  lemma {:induction false} RegisterTelegram(a: seq<string>, l1: string, b: seq<string>, l2: string, c: seq<string>,
                                            low: real, normal: real)
    requires AllUnrelated(a) && AllUnrelated(b) && AllUnrelated(c)
    requires StartsWith(l1, LowPrefix) && FieldValue(Rules[0], l1) == Some(low)
    requires StartsWith(l2, NormalPrefix) && FieldValue(Rules[1], l2) == Some(normal)
    ensures Convert(a + [l1] + b + [l2] + c) == Success(map[LowTariff := low, NormalTariff := normal, TotalTariff := low + normal])
  {
    var m := a + [l1] + b + [l2] + c;
    TelegramLayout(a, l1, b, l2, c);
    TwoRegisterReading(m, |a|, |a| + 1 + |b|, low, normal);
  }
}
