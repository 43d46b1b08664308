/**
 * The two pieces of `java.lang.String` behaviour the replicas depend on:
 * `s.split(":")`, used to take write-log entries apart, and
 * `String.valueOf(int)` for non-negative values, used to build `"open:<capacity>"`.
 */
module JavaStrings {
  import opened Wrappers

  /** Cuts `s` at every ':' and keeps every piece, empty ones included. */
  function Pieces(s: string): (r: seq<string>)
    ensures |r| >= 1
    decreases |s|
  {
    if |s| == 0 then [""]
    else if s[0] == ':' then [""] + Pieces(s[1..])
    else
      var rest := Pieces(s[1..]);
      [[s[0]] + rest[0]] + rest[1..]
  }

  /** Drops the empty strings at the end of the array, as `split` with limit 0 does. */
  function StripTrailingEmpty(ps: seq<string>): seq<string>
  {
    if |ps| > 0 && ps[|ps| - 1] == "" then StripTrailingEmpty(ps[..|ps| - 1]) else ps
  }

  /** What is stripped is a run of empty strings at the end, and what is kept ends in a non-empty one. */
  lemma {:induction false} StripTrailingEmptyKeepsPrefix(ps: seq<string>)
    ensures var r := StripTrailingEmpty(ps);
      && |r| <= |ps| && r == ps[..|r|]
      && (|r| > 0 ==> r[|r| - 1] != "")
      && forall k :: |r| <= k < |ps| ==> ps[k] == ""
  {
    if |ps| > 0 && ps[|ps| - 1] == "" {
      var front := ps[..|ps| - 1];
      StripTrailingEmptyKeepsPrefix(front);
      var r := StripTrailingEmpty(front);
      assert r == ps[..|r|] by {
        assert front[..|r|] == ps[..|r|];
      }
      forall k | |r| <= k < |ps| ensures ps[k] == "" {
        if k < |front| {
          assert front[k] == ps[k];
        }
      }
    }
  }

  /**
   * `s.split(":")`: when no ':' occurs the result is `[s]` (even for the empty
   * string); otherwise the pieces with the trailing empty ones removed, which can
   * leave no piece at all (`":".split(":")` has length 0).
   */
  function Split(s: string): seq<string>
  {
    if ':' in s then StripTrailingEmpty(Pieces(s)) else [s]
  }

  /** `s.split(":")[k]`, or None where Java raises ArrayIndexOutOfBoundsException. */
  function Field(s: string, k: nat): Option<string>
  {
    var parts := Split(s);
    if k < |parts| then Some(parts[k]) else None
  }

  lemma {:induction false} PiecesWithoutColon(s: string)
    requires ':' !in s
    ensures Pieces(s) == [s]
    decreases |s|
  {
    if |s| > 0 {
      assert ':' !in s[1..] by {
        forall k | 0 <= k < |s[1..]| ensures s[1..][k] != ':' { assert s[1..][k] == s[k + 1]; }
      }
      PiecesWithoutColon(s[1..]);
      assert [s[0]] + s[1..] == s;
    }
  }

  lemma {:induction false} PiecesOfPair(a: string, b: string)
    requires ':' !in a && ':' !in b
    ensures Pieces(a + ":" + b) == [a, b]
    decreases |a|
  {
    var s := a + ":" + b;
    if |a| == 0 {
      assert s == ":" + b && s[1..] == b;
      PiecesWithoutColon(b);
    } else {
      assert s[0] == a[0];
      assert s[1..] == a[1..] + ":" + b;
      assert ':' !in a[1..] by {
        forall k | 0 <= k < |a[1..]| ensures a[1..][k] != ':' { assert a[1..][k] == a[k + 1]; }
      }
      PiecesOfPair(a[1..], b);
      assert [a[0]] + a[1..] == a;
    }
  }

  /**
   * A write built as `a + ":" + b` from two colon-free parts, `b` non-empty, is
   * taken apart by `split(":")` into exactly `a` and `b` again.
   */
  lemma SplitPair(a: string, b: string)
    requires ':' !in a && ':' !in b && b != ""
    ensures Split(a + ":" + b) == [a, b]
    ensures Field(a + ":" + b, 0) == Some(a) && Field(a + ":" + b, 1) == Some(b)
  {
    var s := a + ":" + b;
    assert s[|a|] == ':';
    PiecesOfPair(a, b);
  }

  lemma {:induction false} PiecesOfTriple(a: string, b: string, c: string)
    requires ':' !in a && ':' !in b && ':' !in c
    ensures Pieces(a + ":" + b + ":" + c) == [a, b, c]
    decreases |a|
  {
    var s := a + ":" + b + ":" + c;
    if |a| == 0 {
      assert s[0] == ':' && s[1..] == b + ":" + c;
      PiecesOfPair(b, c);
    } else {
      assert s[0] == a[0];
      assert s[1..] == a[1..] + ":" + b + ":" + c;
      assert ':' !in a[1..] by {
        forall k | 0 <= k < |a[1..]| ensures a[1..][k] != ':' { assert a[1..][k] == a[k + 1]; }
      }
      PiecesOfTriple(a[1..], b, c);
      assert [a[0]] + a[1..] == a;
    }
  }

  /** Three colon-free parts joined by ':' split back into the three, the last one non-empty. */
  lemma SplitTriple(a: string, b: string, c: string)
    requires ':' !in a && ':' !in b && ':' !in c && c != ""
    ensures Split(a + ":" + b + ":" + c) == [a, b, c]
    ensures Field(a + ":" + b + ":" + c, 1) == Some(b)
  {
    var s := a + ":" + b + ":" + c;
    assert s[|a|] == ':';
    PiecesOfTriple(a, b, c);
  }

  /** A digit character for 0 <= d <= 9. */
  function DigitChar(d: nat): (c: char)
    requires d < 10
    ensures '0' <= c <= '9'
  {
    (48 + d) as char
  }

  /** `String.valueOf(n)` for n >= 0: decimal digits, most significant first. */
  function DecimalString(n: nat): (r: string)
    ensures |r| >= 1
    ensures forall k :: 0 <= k < |r| ==> '0' <= r[k] <= '9'
  {
    if n < 10 then [DigitChar(n)] else DecimalString(n / 10) + [DigitChar(n % 10)]
  }

  lemma DecimalStringHasNoColon(n: nat)
    ensures ':' !in DecimalString(n) && DecimalString(n) != ""
  {
  }
}
