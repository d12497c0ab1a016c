/**
 * The duration tokens taken by the `mute` command (`30m`, `2h`, `1d`,
 * `60s`): the last character picks the unit, and everything before it is
 * handed to Python's `int()`.
 */
module Duration {
  import opened Wrappers
  import opened Decimal

  /**
   * The three things `parse_duration` can do: return a number of seconds,
   * return `None` for an unknown suffix, or let the `ValueError` of `int()`
   * escape.
   */
  datatype Parsed = Seconds(n: int) | Unrecognised | Raises

  /** Seconds per unit for the four suffixes, and 0 for any other character. */
  function UnitSeconds(c: char): nat
  {
    match c
    case 'd' => 86400
    case 'h' => 3600
    case 'm' => 60
    case 's' => 1
    case _ => 0
  }

  function Scaled(p: Option<int>, factor: int): Parsed
  {
    match p
    case Some(v) => Seconds(v * factor)
    case None => Raises
  }

  function ParseDuration(d: string): (r: Parsed)
    ensures r.Unrecognised? <==> d == [] || UnitSeconds(d[|d| - 1]) == 0
    ensures r.Raises? <==> d != [] && UnitSeconds(d[|d| - 1]) > 0 && ParseInt(d[..|d| - 1]).None?
    ensures r.Seconds? ==> r.n % UnitSeconds(d[|d| - 1]) == 0
  {
    if d != [] && d[|d| - 1] == 'd' then Scaled(ParseInt(d[..|d| - 1]), 86400)
    else if d != [] && d[|d| - 1] == 'h' then Scaled(ParseInt(d[..|d| - 1]), 3600)
    else if d != [] && d[|d| - 1] == 'm' then Scaled(ParseInt(d[..|d| - 1]), 60)
    else if d != [] && d[|d| - 1] == 's' then Scaled(ParseInt(d[..|d| - 1]), 1)
    else Unrecognised
  }

  /**
   * Every integer written out and followed by a unit suffix parses back to
   * that many units, whatever its sign.
   */
  lemma {:induction false} ParseWrittenDuration(n: int, unit: char)
    requires UnitSeconds(unit) > 0
    ensures ParseDuration(IntToString(n) + [unit]) == Seconds(n * UnitSeconds(unit))
  {
    var d := IntToString(n) + [unit];
    assert d[..|d| - 1] == IntToString(n);
    ParseIntRoundTrip(n);
  }

  /** `30m` is half an hour: the concrete case of the rule above. */
  lemma HalfHour()
    ensures ParseDuration("30m") == Seconds(1800)
  {
    assert NatToString(3) == "3";
    assert IntToString(30) == "30";
    ParseWrittenDuration(30, 'm');
    assert IntToString(30) + ['m'] == "30m";
  }

  /** `24h`, the mute length of an escalated warning, is one day. */
  lemma OneDay()
    ensures ParseDuration("24h") == Seconds(86400)
  {
    assert NatToString(2) == "2";
    assert IntToString(24) == "24";
    ParseWrittenDuration(24, 'h');
    assert IntToString(24) + ['h'] == "24h";
  }

  /** A signed prefix goes through `int()` too, so `-5m` is minus five minutes. */
  lemma NegativeMinutes()
    ensures ParseDuration("-5m") == Seconds(-300)
  {
    assert IntToString(-5) == "-5";
    ParseWrittenDuration(-5, 'm');
    assert IntToString(-5) + ['m'] == "-5m";
  }

  /** The empty token and a bare number have no suffix; a bare suffix makes `int('')` raise. */
  lemma MalformedTokens()
    ensures ParseDuration("") == Unrecognised
    ensures ParseDuration("30") == Unrecognised
    ensures ParseDuration("m") == Raises
  {
    assert "m"[..0] == "";
    ParseIntNeedsDigit("");
  }
}
