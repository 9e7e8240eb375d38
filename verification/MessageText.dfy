/** One-pass substitution of %n placeholders in a message text. */
module MessageText {
  import opened Wrappers
  import opened Registries

  /** The decimal digits of the regular expression and their values; not only those of ASCII. */
  datatype DigitTable = DigitTable(of: char -> Option<nat>)

  /** Digits have the values 0 to 9, those of ASCII their usual ones, and the percent sign is none. */
  ghost predicate IsDecimal(t: DigitTable) {
    && (forall c :: t.of(c).Some? ==> t.of(c).value < 10)
    && (forall c :: '0' <= c <= '9' ==> t.of(c) == Some(c as int - '0' as int))
    && t.of('%').None?
  }

  const ASCII_DIGITS := DigitTable(c => if '0' <= c <= '9' then Some(c as int - '0' as int) else None)

  type Digits = t: DigitTable | IsDecimal(t) witness ASCII_DIGITS

  predicate IsDigit(u: Digits, c: char) {
    u.of(c).Some?
  }

  /** Length of the longest prefix of digits. */
  function DigitRun(u: Digits, s: string): (n: nat)
    ensures n <= |s|
    ensures forall k :: 0 <= k < n ==> IsDigit(u, s[k])
    ensures n < |s| ==> !IsDigit(u, s[n])
  {
    if s == "" || !IsDigit(u, s[0]) then 0 else 1 + DigitRun(u, s[1..])
  }

  predicate AllDigits(u: Digits, s: string) {
    forall k :: 0 <= k < |s| ==> IsDigit(u, s[k])
  }

  /** int() of a string of digits. */
  function Value(u: Digits, s: string): nat
    requires AllDigits(u, s)
  {
    if s == "" then 0 else 10 * Value(u, s[..|s| - 1]) + u.of(s[|s| - 1]).value
  }

  /** The error is the number of the missing argument. */
  function Substitute(u: Digits, text: string, args: seq<string>): Result<string, nat>
    decreases |text|
  {
    if text == "" then Ok("")
    else
      var d := if text[0] == '%' then DigitRun(u, text[1..]) else 0;
      if d == 0 then
        match Substitute(u, text[1..], args)
        case Ok(rest) => Ok([text[0]] + rest)
        case Err(n) => Err(n)
      else
        var n := Value(u, text[1..][..d]);
        if n < 1 || n > |args| then Err(n)
        else match Substitute(u, text[1 + d..], args)
             case Ok(rest) => Ok(args[n - 1] + rest)
             case Err(m) => Err(m)
  }

  // ----- placeholders, without reference to the scan -----

  predicate Placeholder(u: Digits, text: string, i: nat) {
    i + 1 < |text| && text[i] == '%' && IsDigit(u, text[i + 1])
  }

  /** The longest run of digits after the percent sign. */
  function Run(u: Digits, text: string, i: nat): (run: string)
    requires Placeholder(u, text, i)
    ensures AllDigits(u, run) && run != ""
  {
    text[i + 1..][..DigitRun(u, text[i + 1..])]
  }

  function Number(u: Digits, text: string, i: nat): nat
    requires Placeholder(u, text, i)
  {
    Value(u, Run(u, text, i))
  }

  /** It follows the sign and goes on for as long as there are digits. */
  lemma RunExactly(u: Digits, text: string, i: nat)
    requires Placeholder(u, text, i)
    ensures var run := Run(u, text, i);
            && i + 1 + |run| <= |text| && text[i + 1..i + 1 + |run|] == run
            && (i + 1 + |run| < |text| ==> !IsDigit(u, text[i + 1 + |run|]))
  {
  }

  predicate InRange(u: Digits, text: string, i: nat, args: seq<string>)
    requires Placeholder(u, text, i)
  {
    1 <= Number(u, text, i) <= |args|
  }

  lemma Suffix(u: Digits, text: string, k: nat, i: nat)
    requires k <= i && k <= |text|
    ensures Placeholder(u, text, i) <==> Placeholder(u, text[k..], i - k)
    ensures Placeholder(u, text, i) ==>
              Run(u, text, i) == Run(u, text[k..], i - k) && Number(u, text, i) == Number(u, text[k..], i - k)
  {
    if Placeholder(u, text, i) {
      assert text[k..][i - k + 1..] == text[i + 1..];
    }
  }

  lemma NoneInside(u: Digits, text: string, i: nat)
    requires |text| > 0 && text[0] == '%' && 0 < i <= DigitRun(u, text[1..])
    ensures !Placeholder(u, text, i)
  {
    assert text[i] == text[1..][i - 1];
  }

  /** What one turn of the scan consumes: a placeholder, or one character. */
  function Width(u: Digits, text: string): (k: nat)
    requires text != ""
    ensures 0 < k <= |text| && (k > 1 <==> Placeholder(u, text, 0))
  {
    if text[0] == '%' then 1 + DigitRun(u, text[1..]) else 1
  }

  lemma SubstituteStep(u: Digits, text: string, args: seq<string>)
    requires text != ""
    ensures var k := Width(u, text);
            Substitute(u, text, args) ==
            if k == 1 then
              match Substitute(u, text[1..], args) case Ok(rest) => Ok([text[0]] + rest) case Err(n) => Err(n)
            else if !InRange(u, text, 0, args) then Err(Number(u, text, 0))
            else
              match Substitute(u, text[k..], args)
              case Ok(rest) => Ok(args[Number(u, text, 0) - 1] + rest)
              case Err(n) => Err(n)
  {
  }

  ghost predicate Missing(u: Digits, text: string, args: seq<string>, i: nat) {
    Placeholder(u, text, i) && !InRange(u, text, i, args)
  }

  lemma MissingStep(u: Digits, text: string, args: seq<string>, i: nat)
    requires text != "" && i > 0
    ensures Missing(u, text, args, i) <==>
            i >= Width(u, text) && Missing(u, text[Width(u, text)..], args, i - Width(u, text))
  {
    if i < Width(u, text) { NoneInside(u, text, i); } else { Suffix(u, text, Width(u, text), i); }
  }

  ghost predicate FirstMissing(u: Digits, text: string, args: seq<string>, i: nat) {
    Missing(u, text, args, i) && forall j: nat :: j < i ==> !Missing(u, text, args, j)
  }

  lemma StepOutcome(u: Digits, text: string, args: seq<string>)
    requires text != ""
    ensures Missing(u, text, args, 0) ==> Substitute(u, text, args) == Err(Number(u, text, 0))
    ensures !Missing(u, text, args, 0) ==>
              var rest := Substitute(u, text[Width(u, text)..], args);
              Substitute(u, text, args).Err? == rest.Err? && (rest.Err? ==> Substitute(u, text, args) == rest)
  {
    hide Substitute;
    SubstituteStep(u, text, args);
  }

  /** `i` is what the outcome of the substitution reports. */
  ghost predicate Reports(u: Digits, text: string, args: seq<string>, i: nat) {
    match Substitute(u, text, args)
    case Ok(_) => forall j: nat :: !Missing(u, text, args, j)
    case Err(n) => FirstMissing(u, text, args, i) && n == Number(u, text, i)
  }

  lemma FirstReports(u: Digits, text: string, args: seq<string>)
    requires text == "" || Missing(u, text, args, 0)
    ensures Reports(u, text, args, 0)
  {
    if text != "" { StepOutcome(u, text, args); }
  }

  lemma LaterReports(u: Digits, text: string, args: seq<string>, i: nat)
    requires text != "" && !Missing(u, text, args, 0) && Reports(u, text[Width(u, text)..], args, i)
    ensures Reports(u, text, args, Width(u, text) + i)
  {
    hide Substitute, Missing, FirstMissing;
    StepOutcome(u, text, args);
    FirstMissingStep(u, text, args, i);
  }

  lemma {:induction false} FailsAt(u: Digits, text: string, args: seq<string>) returns (i: nat)
    ensures Reports(u, text, args, i)
    decreases |text|
  {
    hide Substitute, Missing, Reports;
    i := 0;
    if text == "" || Missing(u, text, args, 0) {
      FirstReports(u, text, args);
    } else {
      i := FailsAt(u, text[Width(u, text)..], args);
      LaterReports(u, text, args, i);
      i := Width(u, text) + i;
    }
  }

  lemma FirstMissingStep(u: Digits, text: string, args: seq<string>, i: nat)
    requires text != "" && !Missing(u, text, args, 0)
    ensures var k := Width(u, text);
            && (FirstMissing(u, text[k..], args, i) ==>
                  FirstMissing(u, text, args, k + i) && Number(u, text, k + i) == Number(u, text[k..], i))
            && ((forall j: nat :: !Missing(u, text[k..], args, j)) ==> forall j: nat :: !Missing(u, text, args, j))
  {
    hide Missing;
    var k := Width(u, text);
    forall j: nat | j > 0 ensures Missing(u, text, args, j) <==> j >= k && Missing(u, text[k..], args, j - k) {
      MissingStep(u, text, args, j);
    }
    if FirstMissing(u, text[k..], args, i) {
      assert Missing(u, text, args, k + i) && Missing(u, text[k..], args, i);
      IsPlaceholder(u, text, args, k + i);
      Suffix(u, text, k, k + i);
    }
  }

  lemma IsPlaceholder(u: Digits, text: string, args: seq<string>, i: nat)
    requires Missing(u, text, args, i)
    ensures Placeholder(u, text, i)
  {
  }

  /** Substitution fails exactly when some %n has n outside 1..|args|; the first such n is reported. */
  lemma FailsExactly(u: Digits, text: string, args: seq<string>)
    ensures Substitute(u, text, args).Err? <==> exists i: nat :: Missing(u, text, args, i)
    ensures Substitute(u, text, args).Err? ==>
              exists i: nat :: FirstMissing(u, text, args, i) && Substitute(u, text, args).error == Number(u, text, i)
  {
    hide Substitute, Missing, FirstMissing;
    var i := FailsAt(u, text, args);
    FirstIsMissing(u, text, args, i);
  }

  lemma FirstIsMissing(u: Digits, text: string, args: seq<string>, i: nat)
    ensures FirstMissing(u, text, args, i) ==> Missing(u, text, args, i)
  {
  }

  /** Text before a placeholder is kept, the placeholder with its longest run of digits is replaced once, and
      the argument is not scanned again, whatever it contains. */
  lemma {:induction false} ReplacedOnce(u: Digits, text: string, args: seq<string>, i: nat)
    requires Placeholder(u, text, i) && InRange(u, text, i, args)
    requires forall j: nat :: j < i ==> !Placeholder(u, text, j)
    ensures Substitute(u, text, args) == match Substitute(u, text[i + Width(u, text[i..])..], args)
                                      case Ok(rest) => Ok(text[..i] + args[Number(u, text, i) - 1] + rest)
                                      case Err(n) => Err(n)
    decreases i
  {
    hide Substitute, Number, Run, IsDecimal;
    SubstituteStep(u, text, args);
    if i == 0 {
      assert text[0..] == text && Placeholder(u, text, 0);
      if Substitute(u, text[Width(u, text)..], args).Ok? {
        var rest, a := Substitute(u, text[Width(u, text)..], args).value, args[Number(u, text, 0) - 1];
        assert text[..0] + a + rest == a + rest;
      }
    } else {
      assert !Placeholder(u, text, 0);
      Suffix(u, text, 1, i);
      forall j: nat | j < i - 1 ensures !Placeholder(u, text[1..], j) { Suffix(u, text, 1, j + 1); }
      ReplacedOnce(u, text[1..], args, i - 1);
      assert text[1..][i - 1..] == text[i..];
      var k := Width(u, text[i..]);
      assert text[1..][i - 1 + k..] == text[i + k..];
      if Substitute(u, text[i + k..], args).Ok? {
        var rest, a := Substitute(u, text[i + k..], args).value, args[Number(u, text, i) - 1];
        assert [text[0]] + (text[1..][..i - 1] + a + rest) == text[..i] + a + rest;
      }
    }
  }

  // ----- the arguments "%1", "%2", ... give the text back -----

  function Decimal(n: nat): string {
    if n < 10 then [('0' as int + n) as char] else Decimal(n / 10) + [('0' as int + n % 10) as char]
  }

  function Numbered(m: nat): seq<string> {
    seq(m, k requires 0 <= k < m => "%" + Decimal(k + 1))
  }

  /** Written as a number usually is: ASCII digits without a leading zero. */
  predicate Plain(run: string) {
    run != "" && run[0] != '0' && forall k :: 0 <= k < |run| ==> '0' <= run[k] <= '9'
  }

  lemma {:induction false} DecimalIsPlain(n: nat)
    requires n > 0
    ensures Plain(Decimal(n))
  {
    if n >= 10 { DecimalIsPlain(n / 10); }
  }

  lemma {:induction false} DecimalOfValue(u: Digits, s: string)
    requires AllDigits(u, s) && s != ""
    ensures Plain(s) ==> Value(u, s) > 0 && Decimal(Value(u, s)) == s
    ensures |Decimal(Value(u, s))| <= |s|
  {
    var front, c := s[..|s| - 1], s[|s| - 1];
    assert IsDigit(u, c) && Value(u, s) == 10 * Value(u, front) + u.of(c).value;
    DecimalOfLast(Value(u, front), u.of(c).value);
    assert s == front + [c];
    if Plain(s) { PlainFront(u, front, c); }
    if front != "" { DecimalOfValue(u, front); }
  }

  lemma DecimalOfLast(v: nat, d: nat)
    requires d < 10
    ensures v == 0 ==> |Decimal(10 * v + d)| == 1
    ensures v > 0 ==> Decimal(10 * v + d) == Decimal(v) + [('0' as int + d) as char]
    ensures Decimal(d) == [('0' as int + d) as char]
  {
    assert (10 * v + d) / 10 == v && (10 * v + d) % 10 == d;
  }

  lemma PlainFront(u: Digits, front: string, c: char)
    requires IsDigit(u, c) && Plain(front + [c])
    ensures front != "" ==> Plain(front)
    ensures c == ('0' as int + u.of(c).value) as char && (front == "" ==> u.of(c).value > 0)
  {
    var s := front + [c];
    assert s[|front|] == c && forall k :: 0 <= k < |front| ==> s[k] == front[k];
  }

  /** Every placeholder is in range and plainly written. */
  ghost predicate Canonical(u: Digits, text: string, m: nat) {
    forall i: nat :: Placeholder(u, text, i) ==> 1 <= Number(u, text, i) <= m && Plain(Run(u, text, i))
  }

  lemma CanonicalSuffix(u: Digits, text: string, k: nat, m: nat)
    requires Canonical(u, text, m) && k <= |text|
    ensures Canonical(u, text[k..], m)
  {
    hide Run, Number, Plain;
    forall i: nat | Placeholder(u, text[k..], i)
      ensures 1 <= Number(u, text[k..], i) <= m && Plain(Run(u, text[k..], i))
    {
      Suffix(u, text, k, k + i);
    }
  }

  lemma CanonicalText(u: Digits, text: string, m: nat)
    requires text != "" && Canonical(u, text[Width(u, text)..], m)
    requires Placeholder(u, text, 0) ==> 1 <= Number(u, text, 0) <= m && Plain(Run(u, text, 0))
    ensures Canonical(u, text, m)
  {
    hide Run, Number, Plain;
    var k := Width(u, text);
    forall i: nat | Placeholder(u, text, i) ensures 1 <= Number(u, text, i) <= m && Plain(Run(u, text, i)) {
      if 0 < i < k { NoneInside(u, text, i); } else if i >= k { Suffix(u, text, k, i); }
    }
  }

  /** What replaces a placeholder is never longer, and it is the placeholder itself exactly if that is plain. */
  lemma HeadReplaced(u: Digits, text: string, m: nat)
    requires Placeholder(u, text, 0) && 1 <= Number(u, text, 0) <= m
    ensures |Numbered(m)[Number(u, text, 0) - 1]| <= Width(u, text)
    ensures Numbered(m)[Number(u, text, 0) - 1] == text[..Width(u, text)] <==> Plain(Run(u, text, 0))
  {
    var run, n := Run(u, text, 0), Number(u, text, 0);
    HeadText(u, text);
    hide Run, Width, Decimal, IsDecimal;
    DecimalOfValue(u, run);
    DecimalIsPlain(n);
    SamePercent(run, Decimal(n));
  }

  lemma HeadText(u: Digits, text: string)
    requires Placeholder(u, text, 0)
    ensures text[..Width(u, text)] == "%" + Run(u, text, 0) && Number(u, text, 0) == Value(u, Run(u, text, 0))
  {
  }

  lemma SamePercent(a: string, b: string)
    ensures "%" + a == "%" + b <==> a == b
  {
    assert ("%" + a)[1..] == a && ("%" + b)[1..] == b;
  }

  lemma {:induction false} CanonicalKept(u: Digits, text: string, m: nat)
    requires Canonical(u, text, m)
    ensures Substitute(u, text, Numbered(m)) == Ok(text)
    decreases |text|
  {
    if text != "" {
      CanonicalHead(u, text, m);
      hide Substitute, Canonical, IsDecimal, Number, Numbered, Run;
      var k := Width(u, text);
      CanonicalSuffix(u, text, k, m);
      CanonicalKept(u, text[k..], m);
      SubstituteStep(u, text, Numbered(m));
      assert text == text[..k] + text[k..];
      if k == 1 { assert text[..k] == [text[0]]; }
    }
  }

  lemma CanonicalHead(u: Digits, text: string, m: nat)
    requires Canonical(u, text, m) && text != ""
    ensures Placeholder(u, text, 0) ==>
              InRange(u, text, 0, Numbered(m)) && Numbered(m)[Number(u, text, 0) - 1] == text[..Width(u, text)]
  {
    if Placeholder(u, text, 0) { HeadReplaced(u, text, m); }
  }

  lemma {:induction false} NeverLonger(u: Digits, text: string, m: nat)
    requires Substitute(u, text, Numbered(m)).Ok?
    ensures |Substitute(u, text, Numbered(m)).value| <= |text|
    decreases |text|
  {
    if text != "" {
      hide Substitute, Number, Run, IsDecimal;
      SubstituteStep(u, text, Numbered(m));
      NeverLonger(u, text[Width(u, text)..], m);
      if Width(u, text) > 1 { HeadReplaced(u, text, m); }
    }
  }

  lemma SplitAt(text: string, k: nat, a: string, rest: string)
    requires text == a + rest && k <= |text| && |a| <= k && |rest| <= |text| - k
    ensures a == text[..k] && rest == text[k..]
  {
  }

  lemma {:induction false} KeptIsCanonical(u: Digits, text: string, m: nat)
    requires Substitute(u, text, Numbered(m)) == Ok(text)
    ensures Canonical(u, text, m)
    decreases |text|
  {
    if text != "" {
      KeptHead(u, text, m);
      hide Substitute, Number, Run, IsDecimal, Plain, Canonical;
      KeptIsCanonical(u, text[Width(u, text)..], m);
      CanonicalText(u, text, m);
    }
  }

  lemma KeptHead(u: Digits, text: string, m: nat)
    requires text != "" && Substitute(u, text, Numbered(m)) == Ok(text)
    ensures Substitute(u, text[Width(u, text)..], Numbered(m)) == Ok(text[Width(u, text)..])
    ensures Placeholder(u, text, 0) ==> 1 <= Number(u, text, 0) <= m && Plain(Run(u, text, 0))
  {
    hide Substitute, Number, Run, IsDecimal, Plain;
    var k := Width(u, text);
    SubstituteStep(u, text, Numbered(m));
    var rest := Substitute(u, text[k..], Numbered(m)).value;
    NeverLonger(u, text[k..], m);
    if k > 1 {
      HeadReplaced(u, text, m);
      SplitAt(text, k, Numbered(m)[Number(u, text, 0) - 1], rest);
    } else {
      SplitAt(text, 1, [text[0]], rest);
    }
  }

  /** The text comes back unchanged exactly when every placeholder is in range and plainly written. */
  lemma NumberedArgumentsExactly(u: Digits, text: string, m: nat)
    ensures Substitute(u, text, Numbered(m)) == Ok(text) <==> Canonical(u, text, m)
  {
    if Canonical(u, text, m) { CanonicalKept(u, text, m); }
    if Substitute(u, text, Numbered(m)) == Ok(text) { KeptIsCanonical(u, text, m); }
  }

  // ----- the whole rendering step -----

  datatype TextError = NoText | WrongCount(expected: int, got: nat) | MissingArgument(n: nat)

  /** Without arguments the text is returned as it is; with arguments their number is checked first. */
  function Render(u: Digits, definition: Definition, args: Option<seq<string>>): Result<string, TextError> {
    if definition.text.None? then Err(NoText)
    else if args.None? then Ok(definition.text.value)
    else if definition.numberOfArgs.Some? && |args.value| != definition.numberOfArgs.value then
      Err(WrongCount(definition.numberOfArgs.value, |args.value|))
    else match Substitute(u, definition.text.value, args.value)
         case Ok(text) => Ok(text)
         case Err(n) => Err(MissingArgument(n))
  }

  lemma RenderSucceedsExactly(u: Digits, definition: Definition, args: Option<seq<string>>)
    ensures Render(u, definition, args).Ok? <==>
            && definition.text.Some?
            && (args.Some? ==>
                  && (definition.numberOfArgs.Some? ==> definition.numberOfArgs.value == |args.value|)
                  && forall i: nat :: Placeholder(u, definition.text.value, i) ==>
                      InRange(u, definition.text.value, i, args.value))
  {
    if definition.text.Some? && args.Some? {
      FailsExactly(u, definition.text.value, args.value);
      var text := definition.text.value;
      assert forall i: nat :: Missing(u, text, args.value, i) <==>
          Placeholder(u, text, i) && !InRange(u, text, i, args.value);
    }
  }

  /** What is rendered, and which error comes first. */
  lemma RenderExactly(u: Digits, definition: Definition, args: Option<seq<string>>)
    ensures Render(u, definition, args) == Err(NoText) <==> definition.text.None?
    ensures definition.text.Some? && args.None? ==> Render(u, definition, args) == Ok(definition.text.value)
    ensures definition.text.Some? && args.Some? ==>
              var n, text := |args.value|, definition.text.value;
              if definition.numberOfArgs.Some? && definition.numberOfArgs.value != n then
                Render(u, definition, args) == Err(WrongCount(definition.numberOfArgs.value, n))
              else if Substitute(u, text, args.value).Ok? then
                Render(u, definition, args) == Ok(Substitute(u, text, args.value).value)
              else
                exists i: nat :: FirstMissing(u, text, args.value, i)
                  && Render(u, definition, args) == Err(MissingArgument(Number(u, text, i)))
  {
    if definition.text.Some? && args.Some? { FailsExactly(u, definition.text.value, args.value); }
  }

  // ----- the numbers of placeholders are decimal -----

  function Power10(n: nat): nat {
    if n == 0 then 1 else 10 * Power10(n - 1)
  }

  lemma ValueOfLast(u: Digits, front: string, c: char)
    requires AllDigits(u, front) && IsDigit(u, c)
    ensures AllDigits(u, front + [c]) && Value(u, front + [c]) == 10 * Value(u, front) + u.of(c).value
  {
    assert (front + [c])[..|front|] == front;
  }

  lemma Shifted(x: nat, n: nat, y: nat, d: nat)
    ensures 10 * (x * Power10(n) + y) + d == x * Power10(n + 1) + (10 * y + d)
  {
    assert 10 * (x * Power10(n)) == x * (10 * Power10(n));
  }

  /** Each digit counts ten times as much as the next one. */
  lemma {:induction false} Decimally(u: Digits, a: string, b: string)
    requires AllDigits(u, a) && AllDigits(u, b)
    ensures AllDigits(u, a + b) && Value(u, a + b) == Value(u, a) * Power10(|b|) + Value(u, b)
  {
    if b == "" {
      assert a + b == a;
    } else {
      var front, c := b[..|b| - 1], b[|b| - 1];
      assert b == front + [c] && a + b == (a + front) + [c];
      Decimally(u, a, front);
      hide Value, Power10, IsDecimal;
      ValueOfLast(u, a + front, c);
      ValueOfLast(u, front, c);
      Shifted(Value(u, a), |front|, Value(u, front), u.of(c).value);
    }
  }

  lemma OneDigit(u: Digits, c: char)
    requires IsDigit(u, c)
    ensures Value(u, [c]) == u.of(c).value
  {
    ValueOfLast(u, "", c);
    assert "" + [c] == [c];
  }
}
