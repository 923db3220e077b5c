/** The control sequences of the Select Graphic Rendition function (section 8.3.117 of
    ECMA-48): ESC, `[`, parameters in decimal separated by `;`, and the final byte `m`. */
module Sgr {
  import opened Wrappers
  import opened Decimal

  /** The escape character that opens every control sequence. */
  const ESC: char := '\U{1B}'

  /** Parameters in decimal, separated by `;`. */
  function JoinParams(ps: seq<nat>): seq<char>
    requires |ps| > 0
    decreases |ps|
  {
    if |ps| == 1 then DecimalString(ps[0])
    else DecimalString(ps[0]) + [';'] + JoinParams(ps[1..])
  }

  /** The SGR control sequence carrying the parameters `ps`. */
  function Control(ps: seq<nat>): (s: seq<char>)
    requires |ps| > 0
    ensures |s| >= 4 && s[0] == ESC && s[1] == '[' && s[|s| - 1] == 'm'
  {
    [ESC, '['] + JoinParams(ps) + ['m']
  }

  /** Reads `;`-separated decimal parameters up to and including the final `m`, returning them
      and the text after the `m`; `None` when the text does not have that shape. */
  function ParseParams(s: seq<char>): (r: Option<(seq<nat>, seq<char>)>)
    ensures r.Some? ==> |r.value.0| > 0 && |r.value.1| < |s|
    decreases |s|
  {
    match ParseNumber(s)
    case None => None
    case Some((n, rest)) =>
      if |rest| == 0 then None
      else if rest[0] == 'm' then Some(([n], rest[1..]))
      else if rest[0] == ';' then
        match ParseParams(rest[1..])
        case None => None
        case Some((ns, after)) => Some(([n] + ns, after))
      else None
  }

  /** Reads one SGR control sequence from the front of `s`. */
  function ParseControl(s: seq<char>): (r: Option<(seq<nat>, seq<char>)>)
    ensures r.Some? ==> |r.value.0| > 0 && |r.value.1| < |s|
  {
    if |s| >= 2 && s[0] == ESC && s[1] == '[' then ParseParams(s[2..]) else None
  }

  /** The last parameter: its digits, then the final `m`. */
  lemma ParseLastParam(n: nat, rest: seq<char>)
    ensures ParseParams(DecimalString(n) + ['m'] + rest) == Some(([n], rest))
  {
    assert DecimalString(n) + ['m'] + rest == DecimalString(n) + (['m'] + rest);
    ParseDecimal(n, ['m'] + rest);
    assert (['m'] + rest)[1..] == rest;
  }

  /** A number followed by `;` is one parameter of several. */
  lemma ParamsStep(s: seq<char>, n: nat, r: seq<char>, ns: seq<nat>, after: seq<char>)
    requires ParseNumber(s) == Some((n, r)) && |r| > 0 && r[0] == ';'
    requires ParseParams(r[1..]) == Some((ns, after))
    ensures ParseParams(s) == Some(([n] + ns, after))
  {
  }

  /** Any non-empty run of digits followed by `;` and further parameters. */
  lemma ParseDigitsThenParams(ds: seq<char>, tail: seq<char>, ns: seq<nat>, after: seq<char>)
    requires |ds| > 0 && AllDigits(ds)
    requires ParseParams(tail) == Some((ns, after))
    ensures ParseParams(ds + ([';'] + tail)) == Some(([DigitsValue(ds)] + ns, after))
  {
    var r := [';'] + tail;
    var s := ds + r;
    DigitSpanOfDigits(ds, r);
    assert s[..|ds|] == ds;
    assert s[|ds|..] == r;
    assert r[1..] == tail;
    ParamsStep(s, DigitsValue(ds), r, ns, after);
  }

  /** A parameter followed by `;` and further parameters. */
  lemma ParseNextParam(n: nat, tail: seq<char>, ns: seq<nat>, after: seq<char>)
    requires ParseParams(tail) == Some((ns, after))
    ensures ParseParams(DecimalString(n) + [';'] + tail) == Some(([n] + ns, after))
  {
    DecimalDigits(n);
    DigitsValueOfDecimal(n);
    ParseDigitsThenParams(DecimalString(n), tail, ns, after);
    assert DecimalString(n) + [';'] + tail == DecimalString(n) + ([';'] + tail);
  }

  lemma {:induction false} ParseJoined(ps: seq<nat>, rest: seq<char>)
    requires |ps| > 0
    ensures ParseParams(JoinParams(ps) + ['m'] + rest) == Some((ps, rest))
    decreases |ps|
  {
    if |ps| == 1 {
      ParseLastParam(ps[0], rest);
      assert ps == [ps[0]];
    } else {
      var tail := JoinParams(ps[1..]) + ['m'] + rest;
      assert JoinParams(ps) + ['m'] + rest == DecimalString(ps[0]) + [';'] + tail;
      ParseJoined(ps[1..], rest);
      ParseNextParam(ps[0], tail, ps[1..], rest);
      assert [ps[0]] + ps[1..] == ps;
    }
  }

  /** Round trip: a control sequence reads back as its parameters, whatever follows it;
      the final `m` makes every SGR sequence self-delimiting. */
  lemma ParseControlOf(ps: seq<nat>, rest: seq<char>)
    requires |ps| > 0
    ensures ParseControl(Control(ps) + rest) == Some((ps, rest))
  {
    var s := Control(ps) + rest;
    assert s[2..] == JoinParams(ps) + ['m'] + rest;
    ParseJoined(ps, rest);
  }
}
