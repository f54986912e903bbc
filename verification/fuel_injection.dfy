/**
  Level 3, "Fuel Injection Perfection": bring a number of pellets down to one,
  one operation at a time (halve an even count, or add or remove one pellet),
  choosing each operation by the source's bitwise rule.
 */
module FuelInjection {
  import opened Common
  import opened Bits

  /** The fuel panel shows at most this many digits. */
  const MaxDigits: int := 309

  /** The three operations, named as the source records them. */
  datatype Operation = Divide | Remove | Add

  /**
    The source's choice for a count other than one: halve an even count;
    for an odd one remove a pellet when the count is 3 or when
    `n & (n + 1)` exceeds `(n - 2) & (n - 1)`, and add one otherwise.
   */
  function Choose(n: nat): (op: Operation)
    requires n >= 2
    ensures op == Divide <==> n % 2 == 0
  {
    if n % 2 == 0 then Divide
    else if n == 3 || And(n, n + 1) > And(n - 2, n - 1) then Remove
    else Add
  }

  /** The pellet count after an operation. */
  function Apply(op: Operation, n: nat): (r: nat)
    requires n >= 1
  {
    match op
    case Divide => n / 2
    case Remove => n - 1
    case Add => n + 1
  }

  /**
    Reference rule by remainder: halve an even count, remove from 3 and from
    counts one above a multiple of four, add to counts three above one.
   */
  function ByResidue(n: nat): (op: Operation)
    requires n >= 2
  {
    if n % 2 == 0 then Divide
    else if n == 3 || n % 4 == 1 then Remove
    else Add
  }

  /** The bitwise test is exactly the remainder rule. */
  lemma ChooseByResidue(n: nat)
    requires n >= 2
    ensures Choose(n) == ByResidue(n)
  {
    if n % 2 == 1 && n != 3 {
      var y := n / 4;
      if n % 4 == 1 {
        assert n == 4 * y + 1 && y >= 1;
        AndAfterMultipleOfFour(y);
        AndBelowMultipleOfFour(y);
      } else {
        assert n == 4 * y + 3 && y >= 1;
        AndBeforeMultipleOfFour(y);
        AndAfterMultipleOfFour(y);
      }
    }
  }

  /** `(4y + 1) & (4y + 2)` keeps just the bits of 4y. */
  lemma AndAfterMultipleOfFour(y: nat)
    ensures And(4 * y + 1, 4 * y + 2) == 4 * y
  {
    AndStep(4 * y + 1, 4 * y + 2);
    assert (4 * y + 1) / 2 == 2 * y && (4 * y + 2) / 2 == 2 * y + 1 && (4 * y + 2) % 2 == 0;
    AndStep(2 * y, 2 * y + 1);
    assert (2 * y) / 2 == y && (2 * y + 1) / 2 == y && (2 * y) % 2 == 0;
    AndSelf(y);
  }

  /** `(4y - 1) & 4y` falls below 4y. */
  lemma AndBelowMultipleOfFour(y: nat)
    requires y >= 1
    ensures And(4 * y - 1, 4 * y) < 4 * y
  {
    AndStep(4 * y - 1, 4 * y);
    assert (4 * y - 1) / 2 == 2 * y - 1 && (4 * y) / 2 == 2 * y && (4 * y) % 2 == 0;
    AndStep(2 * y - 1, 2 * y);
    assert (2 * y - 1) / 2 == y - 1 && (2 * y) / 2 == y && (2 * y) % 2 == 0;
    AndBoundedByLeft(y - 1, y);
  }

  /** `(4y + 3) & (4y + 4)` is at most 4y. */
  lemma AndBeforeMultipleOfFour(y: nat)
    ensures And(4 * y + 3, 4 * y + 4) <= 4 * y
  {
    AndStep(4 * y + 3, 4 * y + 4);
    assert (4 * y + 3) / 2 == 2 * y + 1 && (4 * y + 4) / 2 == 2 * y + 2 && (4 * y + 4) % 2 == 0;
    AndStep(2 * y + 1, 2 * y + 2);
    assert (2 * y + 1) / 2 == y && (2 * y + 2) / 2 == y + 1 && (2 * y + 2) % 2 == 0;
    AndBoundedByLeft(y, y + 1);
  }

  /**
    A measure every operation lowers: an even count halves, and an odd count
    (charged two extra) moves to an even neighbour.
   */
  function Measure(n: nat): (r: nat)
  {
    if n <= 1 then 0 else if n % 2 == 0 then n else n + 2
  }

  /**
    One step of the reduction by the remainder rule (which the source's
    bitwise rule equals), always lowering the measure and never reaching zero.
   */
  function Next(n: nat): (r: nat)
    requires n >= 2
    ensures r >= 1 && Measure(r) < Measure(n)
  {
    Apply(ByResidue(n), n)
  }

  /** The counts visited from n down to 1. */
  function Path(n: nat): (r: seq<nat>)
    requires n >= 1
    decreases Measure(n)
  {
    if n == 1 then [1] else [n] + Path(Next(n))
  }

  /** The operations applied on the way from n down to 1. */
  function Operations(n: nat): (r: seq<Operation>)
    requires n >= 1
    decreases Measure(n)
  {
    if n == 1 then [] else [ByResidue(n)] + Operations(Next(n))
  }

  /**
    A trace from n: it starts at n, ends at 1 and at nowhere earlier, and each
    operation is the remainder rule's choice for the count it is applied to.
   */
  predicate Trace(n: nat, path: seq<nat>, ops: seq<Operation>)
  {
    |path| == |ops| + 1 && path[0] == n && path[|ops|] == 1
    && forall i | 0 <= i < |ops| ::
         path[i] >= 2 && ops[i] == ByResidue(path[i]) && path[i + 1] == Apply(ops[i], path[i])
  }

  /** The recursive path and operations form a trace. */
  lemma {:induction false} PathIsTrace(n: nat)
    requires n >= 1
    ensures Trace(n, Path(n), Operations(n))
    decreases Measure(n)
  {
    if n != 1 {
      PathIsTrace(Next(n));
      var path, ops := Path(n), Operations(n);
      var rest, restOps := Path(Next(n)), Operations(Next(n));
      forall i | 0 <= i < |ops|
        ensures path[i] >= 2 && ops[i] == ByResidue(path[i]) && path[i + 1] == Apply(ops[i], path[i])
      {
        if i > 0 {
          assert path[i] == rest[i - 1] && ops[i] == restOps[i - 1] && path[i + 1] == rest[i];
        }
      }
    }
  }

  /** A trace is determined by its start: there is only one way down. */
  lemma {:induction false} TraceUnique(n: nat, path: seq<nat>, ops: seq<Operation>)
    requires n >= 1 && Trace(n, path, ops)
    ensures path == Path(n) && ops == Operations(n)
    decreases Measure(n)
  {
    if |ops| > 0 {
      assert n == path[0] >= 2;
      var rest, restOps := path[1..], ops[1..];
      assert Trace(Next(n), rest, restOps) by {
        forall i | 0 <= i < |restOps|
          ensures rest[i] >= 2 && restOps[i] == ByResidue(rest[i]) && rest[i + 1] == Apply(restOps[i], rest[i])
        {
          assert rest[i] == path[i + 1] && rest[i + 1] == path[i + 2] && restOps[i] == ops[i + 1];
        }
      }
      TraceUnique(Next(n), rest, restOps);
      assert path == [n] + rest;
      assert ops == [ops[0]] + restOps;
    }
  }

  /**
    The source's `reduce_to_one`: apply the chosen operation until one pellet
    is left, recording the counts and the operations.  It stops for every
    starting count of at least one; zero would loop forever, so it is
    excluded.
   */
  method ReduceToOne(n: nat) returns (count: nat, path: seq<nat>, ops: seq<Operation>)
    requires n >= 1
    ensures Trace(n, path, ops) && count == |ops|
    ensures forall i | 0 <= i < count :: (ops[i] == Divide <==> path[i] % 2 == 0) && (ops[i] == Add ==> path[i] != 3)
  {
    var m := n;
    count := 0;
    path := [m];
    ops := [];
    while m != 1
      invariant m >= 1
      invariant |path| == count + 1 && |ops| == count && path[0] == n && path[count] == m
      invariant forall i | 0 <= i < count ::
                  path[i] >= 2 && ops[i] == ByResidue(path[i]) && path[i + 1] == Apply(ops[i], path[i])
      decreases Measure(m)
    {
      var op := Choose(m);
      ChooseByResidue(m);
      m := Apply(op, m);
      ops := ops + [op];
      path := path + [m];
      count := count + 1;
    }
  }

  /** The digits the model parses. */
  predicate IsDigit(c: char)
  {
    '0' <= c <= '9'
  }

  /** A non-empty run of decimal digits. */
  predicate AllDigits(s: string)
  {
    s != [] && forall i | 0 <= i < |s| :: IsDigit(s[i])
  }

  /**
    The whitespace Python 2's `int()` skips around a numeral: the C library's
    `isspace` in the C locale (space, tab, newline, vertical tab, form feed,
    carriage return).
   */
  predicate IsSpace(c: char)
  {
    c == ' ' || c == '\t' || c == '\n' || c == '\U{000B}' || c == '\U{000C}' || c == '\r'
  }

  /** Nothing but whitespace (possibly nothing at all). */
  predicate AllSpace(s: string)
  {
    forall i | 0 <= i < |s| :: IsSpace(s[i])
  }

  /** `s` without its leading whitespace. */
  function DropLeadingSpace(s: string): (r: string)
    ensures |r| <= |s|
    ensures r == [] || !IsSpace(r[0])
  {
    if s != [] && IsSpace(s[0]) then DropLeadingSpace(s[1..]) else s
  }

  /** `s` without its trailing whitespace. */
  function DropTrailingSpace(s: string): (r: string)
    ensures |r| <= |s|
    ensures r == [] || !IsSpace(r[|r| - 1])
  {
    if s != [] && IsSpace(s[|s| - 1]) then DropTrailingSpace(s[..|s| - 1]) else s
  }

  /** The value of a string of decimal digits. */
  function DecimalValue(s: string): (r: nat)
    requires forall i | 0 <= i < |s| :: IsDigit(s[i])
  {
    if s == [] then 0
    else
      assert IsDigit(s[|s| - 1]);
      10 * DecimalValue(s[..|s| - 1]) + (s[|s| - 1] as int - '0' as int)
  }

  /**
    Python 2's `int(s)` on a string: whitespace, an optional sign, more
    whitespace, one or more decimal digits, whitespace; anything else is a
    `ValueError`, modelled as `None`.
   */
  function Parse(s: string): (r: Option<int>)
  {
    ParseTrimmed(DropTrailingSpace(DropLeadingSpace(s)))
  }

  /** `int()` on the text between the surrounding whitespace. */
  function ParseTrimmed(t: string): (r: Option<int>)
  {
    if t != [] && (t[0] == '+' || t[0] == '-') then
      var digits := DropLeadingSpace(t[1..]);
      if AllDigits(digits) then Some(Signed(t[0] == '-', DecimalValue(digits))) else None
    else if AllDigits(t) then Some(DecimalValue(t))
    else None
  }

  /** A value with its sign applied. */
  function Signed(negative: bool, value: nat): (r: int)
  {
    if negative then -(value as int) else value
  }

  /** A plain run of digits parses to its decimal value. */
  lemma ParseDigits(s: string)
    requires AllDigits(s)
    ensures Parse(s) == Some(DecimalValue(s))
  {
    assert !IsSpace(s[0]) && !IsSpace(s[|s| - 1]);
    assert DropTrailingSpace(DropLeadingSpace(s)) == s by { TrimNothing(s); }
  }

  /** Text that neither starts nor ends with whitespace is left as it is. */
  lemma TrimNothing(s: string)
    requires s != [] && !IsSpace(s[0]) && !IsSpace(s[|s| - 1])
    ensures DropTrailingSpace(DropLeadingSpace(s)) == s
  {
    assert "" + (s + "") == s;
    DropSpaceAround("", s, "");
  }

  /** Nothing but whitespace is not a number. */
  lemma ParseSpace(s: string)
    requires AllSpace(s)
    ensures Parse(s).None?
  {
    assert DropLeadingSpace(s) == [] by { DropLeadingOf(s, []); assert s + [] == s; }
  }

  /** Digits with whitespace around them parse to their value. */
  lemma ParseUnsigned(lead: string, digits: string, trail: string)
    requires AllSpace(lead) && AllDigits(digits) && AllSpace(trail)
    ensures Parse(lead + digits + trail) == Some(DecimalValue(digits))
  {
    assert lead + digits + trail == lead + (digits + trail);
    assert !IsSpace(digits[0]) && !IsSpace(digits[|digits| - 1]);
    DropSpaceAround(lead, digits, trail);
  }

  /**
    A sign, then whitespace, then digits, with whitespace around the lot,
    parses to the signed value.
   */
  lemma ParseSigned(lead: string, sign: char, gap: string, digits: string, trail: string)
    requires AllSpace(lead) && AllSpace(gap) && AllDigits(digits) && AllSpace(trail)
    requires sign == '+' || sign == '-'
    ensures Parse(lead + [sign] + gap + digits + trail) == Some(Signed(sign == '-', DecimalValue(digits)))
  {
    var body := [sign] + (gap + digits);
    assert lead + [sign] + gap + digits + trail == lead + (body + trail);
    assert body[0] == sign;
    assert body[|body| - 1] == digits[|digits| - 1];
    DropSpaceAround(lead, body, trail);
    assert body[1..] == gap + digits;
    DropLeadingOf(gap, digits);
  }

  /** Whitespace on both sides of text that starts and ends with something else is all that is dropped. */
  lemma DropSpaceAround(lead: string, body: string, trail: string)
    requires AllSpace(lead) && AllSpace(trail) && body != []
    requires !IsSpace(body[0]) && !IsSpace(body[|body| - 1])
    ensures DropTrailingSpace(DropLeadingSpace(lead + (body + trail))) == body
  {
    DropLeadingOf(lead, body + trail);
    DropTrailingOf(body, trail);
  }

  lemma {:induction false} DropLeadingOf(lead: string, rest: string)
    requires AllSpace(lead) && (rest == [] || !IsSpace(rest[0]))
    ensures DropLeadingSpace(lead + rest) == rest
    decreases |lead|
  {
    if lead != [] {
      assert (lead + rest)[1..] == lead[1..] + rest;
      DropLeadingOf(lead[1..], rest);
    } else {
      assert lead + rest == rest;
    }
  }

  lemma {:induction false} DropTrailingOf(body: string, trail: string)
    requires AllSpace(trail) && (body == [] || !IsSpace(body[|body| - 1]))
    ensures DropTrailingSpace(body + trail) == body
    decreases |trail|
  {
    if trail != [] {
      assert (body + trail)[..|body + trail| - 1] == body + trail[..|trail| - 1];
      DropTrailingOf(body, trail[..|trail| - 1]);
    } else {
      assert body + trail == body;
    }
  }

  /**
    The source's loop on a count of zero or less never stops: halving an even
    count, and adding or removing one from an odd count, keep it at zero or
    below, so it never reaches one, whichever way the bitwise test goes.
   */
  lemma {:induction false} NonPositiveNeverReachesOne(path: seq<int>)
    requires |path| >= 1 && path[0] <= 0
    requires forall i | 0 <= i < |path| - 1 ::
               if path[i] % 2 == 0 then path[i + 1] == path[i] / 2 else path[i + 1] == path[i] - 1 || path[i + 1] == path[i] + 1
    ensures forall i | 0 <= i < |path| :: path[i] <= 0 && path[i] != 1
  {
    if |path| > 1 {
      var init := path[..|path| - 1];
      NonPositiveNeverReachesOne(init);
      assert path[|path| - 2] == init[|path| - 2];
    }
  }

  /** The source's `solution` returns: a numeral it reads is not negative. */
  predicate Returns(pellets: Option<string>)
  {
    pellets.None? || |pellets.value| > MaxDigits || Parse(pellets.value).None? || Parse(pellets.value).value >= 0
  }

  /**
    The source's `solution` on a Python 2 `str` or `None`: 0 for a missing
    input, for more than 309 characters, for anything that is not a numeral
    and for zero pellets; otherwise the number of operations down to one
    pellet.
   */
  method Solution(pellets: Option<Bytes>) returns (r: nat)
    requires Returns(pellets)
    ensures pellets.None? ==> r == 0
    ensures pellets.Some? && |pellets.value| > MaxDigits ==> r == 0
    ensures pellets.Some? && Parse(pellets.value).None? ==> r == 0
    ensures pellets.Some? && Parse(pellets.value) == Some(0) ==> r == 0
    ensures pellets.Some? && |pellets.value| <= MaxDigits && Parse(pellets.value).Some? && Parse(pellets.value).value >= 1 ==>
              r == |Operations(Parse(pellets.value).value)|
  {
    if pellets.None? {
      return 0;
    }
    if |pellets.value| > MaxDigits {
      return 0;
    }
    var parsed := Parse(pellets.value);
    if parsed.None? {
      return 0;
    }
    var n := parsed.value;
    if n == 0 {
      return 0;
    }
    var count, path, ops := ReduceToOne(n);
    TraceUnique(n, path, ops);
    r := count;
  }

  /** The worked paths: 15 goes up to 16 and halves four times; 4 halves twice. */
  lemma SmallPaths()
    ensures Path(15) == [15, 16, 8, 4, 2, 1]
    ensures Operations(15) == [Add, Divide, Divide, Divide, Divide]
    ensures Path(4) == [4, 2, 1] && Operations(4) == [Divide, Divide]
  {
    assert Next(15) == 16;
  }

  /** Text that starts and ends with a lower-case letter is not a number. */
  lemma ParseWord(s: string)
    requires s != [] && 'a' <= s[0] <= 'z' && 'a' <= s[|s| - 1] <= 'z'
    ensures Parse(s).None?
  {
    TrimNothing(s);
  }

  /** Parsing the worked inputs: "15" and "0" are numbers, "eleventy-six" and "" are not. */
  lemma ParseExamples()
    ensures Parse("15") == Some(15) && Parse("0") == Some(0)
    ensures Parse("eleventy-six").None? && Parse("").None?
  {
    assert Parse("15") == Some(15) by { Fifteen(); ParseDigits("15"); }
    assert Parse("0") == Some(0) by { ParseDigits("0"); }
    assert Parse("eleventy-six").None? by { ParseWord("eleventy-six"); }
    ParseSpace("");
  }

  /** `int()` also reads " 15", but not "1_5". */
  lemma ParseSpacingExamples()
    ensures Parse(" 15") == Some(15) && Parse("1_5").None?
  {
    assert Parse(" 15") == Some(15) by {
      Fifteen();
      assert " 15" == " " + "15" + "";
      ParseUnsigned(" ", "15", "");
    }
    assert Parse("1_5").None? by {
      TrimNothing("1_5");
      assert !IsDigit("1_5"[1]);
    }
  }

  /** `int()` reads a sign, with whitespace allowed after it: "+15" and "- 1". */
  lemma ParseSignExamples()
    ensures Parse("+15") == Some(15) && Parse("- 1") == Some(-1)
  {
    assert Parse("+15") == Some(15) by {
      Fifteen();
      assert "+15" == "" + ['+'] + "" + "15" + "";
      ParseSigned("", '+', "", "15", "");
    }
    assert Parse("- 1") == Some(-1) by {
      assert DecimalValue("1") == 1 && AllDigits("1");
      assert "- 1" == "" + ['-'] + " " + "1" + "";
      ParseSigned("", '-', " ", "1", "");
    }
  }

  lemma Fifteen()
    ensures AllDigits("15") && DecimalValue("15") == 15
  {
    assert "15"[..1] == "1" && "1"[..0] == "";
    assert DecimalValue("1") == 1;
  }
}
