/**
 * The values of the bomb mini-game: the secret code, its printed hint, a
 * planted bomb, and the "try again in ..." breakdown of the remaining
 * cooldown.
 */
module Minigame {
  import opened Wrappers
  import opened Decimal
  import opened Time
  import opened Ids

  /** `random.randint(1000, 2000)`: both ends included. */
  const CodeLow: nat := 1000
  const CodeHigh: nat := 2000

  predicate ValidCode(code: int) { CodeLow <= code <= CodeHigh }

  /** How long a bomb ticks, and how long a guild waits before planting again. */
  const Fuse: nat := Hour
  const Cooldown: nat := Week

  /** An entry of `bomb_info`: the code to guess and when the hour is up. */
  datatype Session = Session(code: int, end: Stamp)

  /** `f"{s[0]}X{s[2]}X"` for `s = str(code)`: the thousands and tens digits, the others masked. */
  function Hint(code: int): (h: string)
    requires ValidCode(code)
    ensures |h| == 4 && h[1] == 'X' && h[3] == 'X'
    ensures h[0] == DigitChar(code / 1000) && h[2] == DigitChar(code / 10 % 10)
  {
    FourDigits(code);
    var s := NatToString(code);
    [s[0], 'X', s[2], 'X']
  }

  lemma HintExample()
    ensures Hint(1732) == "1X3X"
  {
  }

  /** Two codes share a hint exactly when their thousands and tens digits agree. */
  lemma HintShared(a: int, b: int)
    requires ValidCode(a) && ValidCode(b)
    ensures Hint(a) == Hint(b) <==> a / 1000 == b / 1000 && a / 10 % 10 == b / 10 % 10
  {
    if Hint(a) == Hint(b) {
      assert DigitValue(Hint(a)[0]) == a / 1000 && DigitValue(Hint(b)[0]) == b / 1000;
      assert DigitValue(Hint(a)[2]) == a / 10 % 10 && DigitValue(Hint(b)[2]) == b / 10 % 10;
    }
  }

  /** A press of one of the confirmation buttons: who pressed, and whether it was the green one. */
  datatype Click = Click(user: int, confirm: bool)

  /**
   * The value of the confirmation view once it stops: the first press by the
   * author of the command decides, presses by anybody else are ignored, and
   * no press by the author before the timeout leaves it `None`.
   */
  function Answer(clicks: seq<Click>, author: int): Option<bool>
  {
    if clicks == [] then None
    else if clicks[0].user == author then Some(clicks[0].confirm)
    else Answer(clicks[1..], author)
  }

  lemma {:induction false} AnswerIsFirstAuthorClick(clicks: seq<Click>, author: int, b: bool)
    ensures Answer(clicks, author) == Some(b) <==>
      exists i :: 0 <= i < |clicks| && clicks[i] == Click(author, b) &&
        forall j :: 0 <= j < i ==> clicks[j].user != author
  {
    if clicks != [] {
      AnswerIsFirstAuthorClick(clicks[1..], author, b);
      if clicks[0].user != author {
        if Answer(clicks, author) == Some(b) {
          var i :| 0 <= i < |clicks| - 1 && clicks[1..][i] == Click(author, b) &&
            forall j :: 0 <= j < i ==> clicks[1..][j].user != author;
          assert clicks[i + 1] == Click(author, b);
          assert forall j :: 0 <= j < i + 1 ==> clicks[j].user != author by {
            forall j | 0 <= j < i + 1 ensures clicks[j].user != author {
              if j > 0 { assert clicks[j] == clicks[1..][j - 1]; }
            }
          }
        }
        if exists i :: 0 <= i < |clicks| && clicks[i] == Click(author, b) &&
             forall j :: 0 <= j < i ==> clicks[j].user != author {
          var i :| 0 <= i < |clicks| && clicks[i] == Click(author, b) &&
            forall j :: 0 <= j < i ==> clicks[j].user != author;
          assert i > 0;
          assert clicks[1..][i - 1] == Click(author, b);
          assert forall j :: 0 <= j < i - 1 ==> clicks[1..][j].user != author by {
            forall j | 0 <= j < i - 1 ensures clicks[1..][j].user != author {
              assert clicks[1..][j] == clicks[j + 1];
            }
          }
        }
      } else {
        if Answer(clicks, author) == Some(b) {
          assert clicks[0] == Click(author, b);
        }
      }
    }
  }

  /** Without a press by the author the view times out. */
  lemma {:induction false} NoAuthorClickTimesOut(clicks: seq<Click>, author: int)
    requires forall i :: 0 <= i < |clicks| ==> clicks[i].user != author
    ensures Answer(clicks, author) == None
  {
    if clicks != [] {
      NoAuthorClickTimesOut(clicks[1..], author);
    }
  }

  datatype TimeUnit = Days | Hours | Minutes

  function UnitLength(unit: TimeUnit): nat
  {
    match unit
    case Days => Day
    case Hours => Hour
    case Minutes => Minute
  }

  /**
   * The parts of the cooldown message for `remaining` seconds: whole days,
   * then the hours and minutes left over, each part only when it is not zero.
   */
  function RetryParts(remaining: nat): seq<(nat, TimeUnit)>
  {
    var days := remaining / Day;
    var hours := remaining % Day / Hour;
    var minutes := remaining % Day % Hour / Minute;
    Part(days, Days) + Part(hours, Hours) + Part(minutes, Minutes)
  }

  function Total(parts: seq<(nat, TimeUnit)>): nat
  {
    if parts == [] then 0 else parts[0].0 * UnitLength(parts[0].1) + Total(parts[1..])
  }

  lemma {:induction false} TotalAppend(a: seq<(nat, TimeUnit)>, b: seq<(nat, TimeUnit)>)
    ensures Total(a + b) == Total(a) + Total(b)
  {
    if a == [] {
      assert a + b == b;
    } else {
      assert (a + b)[1..] == a[1..] + b;
      TotalAppend(a[1..], b);
    }
  }

  /** The remaining time split into whole days, hours, minutes and the seconds dropped. */
  lemma Breakdown(remaining: nat)
    ensures var rest := remaining % Day;
      remaining == remaining / Day * Day + rest / Hour * Hour + rest % Hour / Minute * Minute + rest % Hour % Minute
    ensures remaining % Day / Hour < 24 && remaining % Day % Hour / Minute < 60
    ensures remaining % Day % Hour % Minute < Minute
  {
    var rest := remaining % Day;
    var sub := rest % Hour;
    assert remaining == remaining / Day * Day + rest;
    assert rest == rest / Hour * Hour + sub;
    assert sub == sub / Minute * Minute + sub % Minute;
  }

  /** One part of the message, present only when its count is not zero. */
  function Part(n: nat, unit: TimeUnit): seq<(nat, TimeUnit)>
  {
    if n > 0 then [(n, unit)] else []
  }

  lemma PartTotal(n: nat, unit: TimeUnit)
    ensures Total(Part(n, unit)) == n * UnitLength(unit)
  {
    if n > 0 {
      assert Part(n, unit)[1..] == [];
    }
  }

  /**
   * The message rounds the remaining time down to whole minutes: what it
   * names is at most the remaining time and less than a minute short of it.
   */
  lemma RetryPartsExact(remaining: nat)
    ensures Total(RetryParts(remaining)) <= remaining < Total(RetryParts(remaining)) + Minute
  {
    var days := remaining / Day;
    var hours := remaining % Day / Hour;
    var minutes := remaining % Day % Hour / Minute;
    Breakdown(remaining);
    var d, h, m := Part(days, Days), Part(hours, Hours), Part(minutes, Minutes);
    assert RetryParts(remaining) == d + h + m;
    TotalAppend(d, h);
    TotalAppend(d + h, m);
    PartTotal(days, Days);
    PartTotal(hours, Hours);
    PartTotal(minutes, Minutes);
  }

  /** Every part names a positive count, with fewer than 24 hours and fewer than 60 minutes. */
  lemma RetryPartsBounded(remaining: nat)
    ensures forall k :: 0 <= k < |RetryParts(remaining)| ==>
      RetryParts(remaining)[k].0 > 0 &&
      (RetryParts(remaining)[k].1 == Hours ==> RetryParts(remaining)[k].0 < 24) &&
      (RetryParts(remaining)[k].1 == Minutes ==> RetryParts(remaining)[k].0 < 60)
  {
    Breakdown(remaining);
  }

  /** Under a minute left, the message names no time at all. */
  lemma RetryPartsEmpty(remaining: nat)
    ensures RetryParts(remaining) == [] <==> remaining < Minute
  {
  }
}
