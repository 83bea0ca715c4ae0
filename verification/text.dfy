/**
 * `strings.Split(s, ":")` and `strings.Join(parts, ":")` from Go's standard
 * library, as GetHours uses them to take an "HH:MM" string apart.
 */
module Text {

  const Colon: char := ':'

  /** Number of occurrences of `c` in `s`. */
  function Count(s: string, c: char): nat
  {
    if s == [] then 0 else (if s[0] == c then 1 else 0) + Count(s[1..], c)
  }

  /**
   * `strings.Split(s, ":")`: the pieces of `s` between colons. The empty
   * string splits into one empty piece.
   */
  function Split(s: string): (parts: seq<string>)
    ensures |parts| >= 1
  {
    if s == [] then [""]
    else
      var rest := Split(s[1..]);
      if s[0] == Colon then [""] + rest
      else [[s[0]] + rest[0]] + rest[1..]
  }

  /** `strings.Join(parts, ":")`. */
  function Join(parts: seq<string>): string
  {
    if |parts| == 0 then ""
    else if |parts| == 1 then parts[0]
    else parts[0] + [Colon] + Join(parts[1..])
  }

  /** A string with `n` colons splits into exactly `n + 1` pieces. */
  lemma {:induction false} SplitCount(s: string)
    ensures |Split(s)| == Count(s, Colon) + 1
  {
    if s != [] {
      SplitCount(s[1..]);
    }
  }

  /** No piece produced by Split contains the separator. */
  lemma {:induction false} SplitPiecesHaveNoColon(s: string)
    ensures forall i :: 0 <= i < |Split(s)| ==> Colon !in Split(s)[i]
  {
    if s != [] {
      SplitPiecesHaveNoColon(s[1..]);
      var rest := Split(s[1..]);
      if s[0] != Colon {
        assert Colon !in rest[0];
        assert Colon !in [s[0]] + rest[0];
      }
    }
  }

  /** Joining the pieces back with ':' gives the original string. */
  lemma {:induction false} JoinSplit(s: string)
    ensures Join(Split(s)) == s
  {
    if s != [] {
      JoinSplit(s[1..]);
      var rest := Split(s[1..]);
      if s[0] == Colon {
        assert Split(s) == [""] + rest;
        assert s == [Colon] + s[1..];
      } else {
        var parts := Split(s);
        assert parts == [[s[0]] + rest[0]] + rest[1..];
        assert parts[1..] == rest[1..];
        if |rest| == 1 {
          assert s == [s[0]] + rest[0];
        } else {
          assert Join(rest) == rest[0] + [Colon] + Join(rest[1..]);
          assert s == [s[0]] + s[1..];
        }
      }
    }
  }

  /** Splitting a colon-free prefix glued to `t` extends Split(t)'s first piece. */
  lemma {:induction false} SplitColonFreePrefix(a: string, t: string)
    requires Colon !in a
    ensures Split(a + t) == [a + Split(t)[0]] + Split(t)[1..]
  {
    if a == [] {
      var parts := Split(t);
      assert a + t == t;
      assert a + parts[0] == parts[0];
      assert parts == [parts[0]] + parts[1..];
    } else {
      SplitColonFreePrefix(a[1..], t);
      assert (a + t)[0] == a[0];
      assert (a + t)[1..] == a[1..] + t;
      assert [a[0]] + (a[1..] + Split(t)[0]) == a + Split(t)[0];
    }
  }

  /** Split undoes Join when no piece contains a colon. */
  lemma {:induction false} SplitJoin(parts: seq<string>)
    requires |parts| >= 1
    requires forall i :: 0 <= i < |parts| ==> Colon !in parts[i]
    ensures Split(Join(parts)) == parts
  {
    if |parts| == 1 {
      SplitColonFreePrefix(parts[0], "");
      assert parts[0] + "" == parts[0];
    } else {
      var tail := Join(parts[1..]);
      SplitJoin(parts[1..]);
      SplitColonFreePrefix(parts[0], [Colon] + tail);
      assert Split([Colon] + tail) == [""] + Split(tail) by {
        assert ([Colon] + tail)[1..] == tail;
      }
      assert parts[0] + ([Colon] + tail) == Join(parts);
      assert parts[0] + "" == parts[0];
      assert parts == [parts[0]] + parts[1..];
    }
  }

  /** The shape GetHours accepts: "a:b" with colon-free a and b splits into [a, b]. */
  lemma TwoPieces(a: string, b: string)
    requires Colon !in a && Colon !in b
    ensures Split(a + [Colon] + b) == [a, b]
  {
    SplitJoin([a, b]);
    assert Join([a, b]) == a + [Colon] + Join([b]);
  }

  /** Strings with no colon, or with two or more, never split into two pieces. */
  lemma TwoPiecesIffOneColon(s: string)
    ensures |Split(s)| == 2 <==> Count(s, Colon) == 1
  {
    SplitCount(s);
  }
}
