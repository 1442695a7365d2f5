/** Kotlin's `String.split(delimiter)` for a one-character delimiter (every
    occurrence splits, empty pieces are kept, including leading and trailing
    ones) and `joinToString(separator)`, with the laws that relate them. */
module Text {

  /** `parts.joinToString(sep.toString())`. */
  function Join(parts: seq<string>, sep: char): string
  {
    if |parts| == 0 then []
    else if |parts| == 1 then parts[0]
    else parts[0] + [sep] + Join(parts[1..], sep)
  }

  /** `s.split(sep.toString())`: the pieces between consecutive separators. */
  function Split(s: string, sep: char): (parts: seq<string>)
    ensures |parts| >= 1
  {
    if s == [] then [[]]
    else
      var rest := Split(s[1..], sep);
      if s[0] == sep then [[]] + rest
      else [[s[0]] + rest[0]] + rest[1..]
  }

  /** Joining the pieces back with the separator rebuilds the string. */
  lemma {:induction false} JoinOfSplit(s: string, sep: char)
    ensures Join(Split(s, sep), sep) == s
  {
    if s != [] {
      JoinOfSplit(s[1..], sep);
      var rest := Split(s[1..], sep);
      if s[0] == sep {
        assert ([[]] + rest)[1..] == rest;
        assert [sep] + Join(rest, sep) == s;
      } else {
        var parts := [[s[0]] + rest[0]] + rest[1..];
        assert parts[1..] == rest[1..];
        assert Join(parts, sep) == [s[0]] + Join(rest, sep);
      }
    }
  }

  /** No piece holds the separator. */
  lemma {:induction false} SplitPiecesLackSeparator(s: string, sep: char)
    ensures forall k :: 0 <= k < |Split(s, sep)| ==> sep !in Split(s, sep)[k]
  {
    if s != [] {
      SplitPiecesLackSeparator(s[1..], sep);
      var rest := Split(s[1..], sep);
      if s[0] != sep {
        var parts := [[s[0]] + rest[0]] + rest[1..];
        assert sep !in parts[0] by {
          assert sep !in rest[0];
        }
        assert forall k :: 1 <= k < |parts| ==> parts[k] == rest[k];
      }
    }
  }

  /** A string without the separator is a single piece. */
  lemma {:induction false} SplitWithoutSeparator(s: string, sep: char)
    requires sep !in s
    ensures Split(s, sep) == [s]
  {
    if s != [] {
      SplitWithoutSeparator(s[1..], sep);
      assert s[0] != sep;
      assert s == [s[0]] + s[1..];
    }
  }

  /** One step of `Split` on a non-empty string. */
  lemma SplitCons(c: char, t: string, sep: char)
    ensures Split([c] + t, sep) ==
      if c == sep then [[]] + Split(t, sep) else [[c] + Split(t, sep)[0]] + Split(t, sep)[1..]
  {
    assert ([c] + t)[1..] == t;
  }

  /** Splitting distributes over a separator placed between two strings. */
  lemma {:induction false} SplitAround(a: string, sep: char, b: string)
    ensures Split(a + [sep] + b, sep) == Split(a, sep) + Split(b, sep)
  {
    if a == [] {
      assert a + [sep] + b == [sep] + b;
      SplitCons(sep, b, sep);
    } else {
      var c, t := a[0], a[1..];
      assert a == [c] + t;
      assert a + [sep] + b == [c] + (t + [sep] + b);
      SplitAround(t, sep, b);
      SplitAroundStep(c, t, sep, b);
    }
  }

  lemma SplitAroundStep(c: char, t: string, sep: char, b: string)
    requires Split(t + [sep] + b, sep) == Split(t, sep) + Split(b, sep)
    ensures Split([c] + (t + [sep] + b), sep) == Split([c] + t, sep) + Split(b, sep)
  {
    SplitCons(c, t + [sep] + b, sep);
    SplitCons(c, t, sep);
    var head, tail := Split(t, sep), Split(b, sep);
    if c == sep {
      assert [[]] + (head + tail) == ([[]] + head) + tail;
    } else {
      ExtendFirst([c], head, tail);
    }
  }

  /** Prefixing the first piece commutes with appending more pieces. */
  lemma ExtendFirst(prefix: string, head: seq<string>, tail: seq<string>)
    requires |head| >= 1
    ensures [prefix + (head + tail)[0]] + (head + tail)[1..] == ([prefix + head[0]] + head[1..]) + tail
  {
    assert (head + tail)[0] == head[0];
    assert (head + tail)[1..] == head[1..] + tail;
  }

  /** `split` inverts `joinToString` when no piece contains the separator. */
  lemma {:induction false} SplitOfJoin(parts: seq<string>, sep: char)
    requires |parts| >= 1
    requires forall k :: 0 <= k < |parts| ==> sep !in parts[k]
    ensures Split(Join(parts, sep), sep) == parts
  {
    if |parts| == 1 {
      SplitWithoutSeparator(parts[0], sep);
    } else {
      SplitOfJoin(parts[1..], sep);
      SplitAround(parts[0], sep, Join(parts[1..], sep));
      SplitWithoutSeparator(parts[0], sep);
    }
  }
}
