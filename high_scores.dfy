/** The high-score ledger: a list of (score, wave) records kept in one
    preference string as comma-separated `score:wave` pairs, at most
    `MaxScores` of them, best first. */
module HighScores {
  import opened Wrappers
  import opened KotlinInt
  import opened Text

  const MaxScores: nat := 5

  datatype HighScore = HighScore(score: int, wave: int)

  predicate IsRecord(h: HighScore)
  {
    IsInt(h.score) && IsInt(h.wave)
  }

  // ---------------------------------------------------------------------
  // Order: score descending, then wave descending.

  /** `a` may stand before `b` in the ledger. */
  predicate RanksAbove(a: HighScore, b: HighScore)
  {
    a.score > b.score || (a.score == b.score && a.wave >= b.wave)
  }

  predicate Ranked(xs: seq<HighScore>)
  {
    forall i, j :: 0 <= i < j < |xs| ==> RanksAbove(xs[i], xs[j])
  }

  /** A record ranking above every element of a ranked list can head it. */
  lemma PrependRanked(x: HighScore, xs: seq<HighScore>)
    requires Ranked(xs)
    requires forall k :: 0 <= k < |xs| ==> RanksAbove(x, xs[k])
    ensures Ranked([x] + xs)
  {
    forall i, j | 0 <= i < j < |xs| + 1
      ensures RanksAbove(([x] + xs)[i], ([x] + xs)[j])
    {
      if i > 0 {
        assert ([x] + xs)[i] == xs[i - 1];
      }
      assert ([x] + xs)[j] == xs[j - 1];
    }
  }

  lemma RankedTail(xs: seq<HighScore>)
    requires Ranked(xs) && xs != []
    ensures Ranked(xs[1..])
  {
    forall i, j | 0 <= i < j < |xs| - 1
      ensures RanksAbove(xs[1..][i], xs[1..][j])
    {
      assert RanksAbove(xs[i + 1], xs[j + 1]);
    }
  }

  /** A record ranking above `h` and above every element of `xs` ranks
      above every element of a rearrangement of `xs` plus `h`. */
  lemma AboveAll(x: HighScore, xs: seq<HighScore>, h: HighScore, rest: seq<HighScore>)
    requires forall k :: 0 <= k < |xs| ==> RanksAbove(x, xs[k])
    requires RanksAbove(x, h)
    requires multiset(rest) == multiset(xs) + multiset{h}
    ensures forall k :: 0 <= k < |rest| ==> RanksAbove(x, rest[k])
  {
    forall k | 0 <= k < |rest|
      ensures RanksAbove(x, rest[k])
    {
      var y := rest[k];
      assert y in multiset(rest);
      if y != h {
        assert y in multiset(xs);
        var m :| 0 <= m < |xs| && xs[m] == y;
      }
    }
  }

  /** Places `h` before the first record it ranks above. */
  function Insert(h: HighScore, xs: seq<HighScore>): (r: seq<HighScore>)
    requires Ranked(xs)
    ensures Ranked(r)
    ensures |r| == |xs| + 1
    ensures multiset(r) == multiset(xs) + multiset{h}
  {
    if xs == [] then [h]
    else if RanksAbove(h, xs[0]) then
      PrependRanked(h, xs);
      [h] + xs
    else
      RankedTail(xs);
      var rest := Insert(h, xs[1..]);
      AboveAll(xs[0], xs[1..], h, rest);
      PrependRanked(xs[0], rest);
      assert xs == [xs[0]] + xs[1..];
      [xs[0]] + rest
  }

  /** The ledger's sort, `sortedWith(compareByDescending { score }
      .thenByDescending { wave })`: a ranked permutation of its input. */
  function SortByRank(xs: seq<HighScore>): (r: seq<HighScore>)
    ensures Ranked(r)
    ensures |r| == |xs|
    ensures multiset(r) == multiset(xs)
  {
    if xs == [] then []
    else
      assert xs == [xs[0]] + xs[1..];
      Insert(xs[0], SortByRank(xs[1..]))
  }

  /** Two ranked permutations of each other start with the same record: the
      head of each ranks above the head of the other, and two records that
      rank above each other are equal. */
  lemma SameHead(a: seq<HighScore>, b: seq<HighScore>)
    requires Ranked(a) && Ranked(b) && a != []
    requires multiset(a) == multiset(b)
    ensures b != [] && a[0] == b[0]
  {
    assert a[0] in multiset(b);
    var i :| 0 <= i < |b| && b[i] == a[0];
    assert b[0] in multiset(a);
    var j :| 0 <= j < |a| && a[j] == b[0];
    assert RanksAbove(b[0], b[i]) || i == 0;
    assert RanksAbove(a[0], a[j]) || j == 0;
  }

  /** A ranked permutation is unique: any sort with this comparator, stable
      or not, yields exactly `SortByRank`. */
  lemma {:induction false} RankedPermutationIsUnique(a: seq<HighScore>, b: seq<HighScore>)
    requires Ranked(a) && Ranked(b)
    requires multiset(a) == multiset(b)
    ensures a == b
  {
    if a == [] {
      assert |b| == |multiset(b)| == 0;
    } else {
      SameHead(a, b);
      assert a == [a[0]] + a[1..];
      assert b == [b[0]] + b[1..];
      assert multiset(a[1..]) == multiset(a) - multiset{a[0]};
      assert multiset(b[1..]) == multiset(b) - multiset{b[0]};
      RankedTail(a);
      RankedTail(b);
      RankedPermutationIsUnique(a[1..], b[1..]);
    }
  }

  /** The list `saveScore` keeps: the old records plus the new one, ranked,
      cut to the first `MaxScores`. */
  function TopScores(old_: seq<HighScore>, h: HighScore): seq<HighScore>
  {
    SortByRank(old_ + [h])[..if |old_| + 1 <= MaxScores then |old_| + 1 else MaxScores]
  }

  /** What the ledger promises after a save: at most five records, ranked,
      a prefix of the ranked old-plus-new list, and nothing that was neither
      there before nor the new record. */
  lemma TopScoresShape(old_: seq<HighScore>, h: HighScore)
    ensures |TopScores(old_, h)| <= MaxScores
    ensures Ranked(TopScores(old_, h))
    ensures TopScores(old_, h) <= SortByRank(old_ + [h])
    ensures multiset(TopScores(old_, h)) <= multiset(old_ + [h])
    ensures forall x :: x in TopScores(old_, h) ==> x in old_ || x == h
  {
    var all := SortByRank(old_ + [h]);
    var r := TopScores(old_, h);
    assert all == r + all[|r|..];
    assert multiset(all) == multiset(r) + multiset(all[|r|..]);
    forall x | x in r
      ensures x in old_ || x == h
    {
      assert x in multiset(r);
      assert x in multiset(old_ + [h]);
      assert x in old_ + [h];
    }
  }

  /** The new record is kept whenever fewer than five were stored before;
      when it is dropped, five records that each rank above it remain. */
  lemma TopScoresKeepsNew(old_: seq<HighScore>, h: HighScore)
    ensures |old_| < MaxScores ==> h in TopScores(old_, h)
    ensures h !in TopScores(old_, h) ==>
      |TopScores(old_, h)| == MaxScores &&
      forall k :: 0 <= k < MaxScores ==> RanksAbove(TopScores(old_, h)[k], h)
  {
    var all := SortByRank(old_ + [h]);
    var r := TopScores(old_, h);
    assert h in multiset(old_ + [h]);
    assert h in multiset(all);
    var m :| 0 <= m < |all| && all[m] == h;
    if |old_| < MaxScores {
      assert r == all;
    }
    if h !in r {
      assert m >= |r|;
    }
  }

  // ---------------------------------------------------------------------
  // Storage format.

  function EntryText(h: HighScore): string
  {
    IntToString(h.score) + ":" + IntToString(h.wave)
  }

  /** `joinToString(",") { "${it.score}:${it.wave}" }`. */
  function Encode(xs: seq<HighScore>): string
  {
    Join(seq(|xs|, k requires 0 <= k < |xs| => EntryText(xs[k])), ',')
  }

  /** One comma-separated entry: exactly two `:`-separated fields that both
      parse as `Int`, or nothing. */
  function ParseEntry(entry: string): (r: Option<HighScore>)
    ensures r.Some? ==> IsRecord(r.value)
  {
    var parts := Split(entry, ':');
    if |parts| == 2 then
      var score := ToIntOrNull(parts[0]);
      var wave := ToIntOrNull(parts[1]);
      if score.Some? && wave.Some? then Some(HighScore(score.value, wave.value)) else None
    else None
  }

  /** `mapNotNull` of `ParseEntry` over the entries, in order. */
  function ParseEntries(entries: seq<string>): (r: seq<HighScore>)
    ensures |r| <= |entries|
    ensures forall k :: 0 <= k < |r| ==> IsRecord(r[k])
  {
    if entries == [] then []
    else
      var head := ParseEntry(entries[0]);
      (if head.Some? then [head.value] else []) + ParseEntries(entries[1..])
  }

  /** `getScores`: the empty string is the empty ledger; otherwise every
      well-formed entry, in stored order. */
  function Decode(raw: string): seq<HighScore>
  {
    if raw == [] then [] else ParseEntries(Split(raw, ','))
  }

  lemma {:induction false} ParseEntriesAppend(a: seq<string>, b: seq<string>)
    ensures ParseEntries(a + b) == ParseEntries(a) + ParseEntries(b)
  {
    if a != [] {
      assert (a + b)[1..] == a[1..] + b;
      assert (a + b)[0] == a[0];
      ParseEntriesAppend(a[1..], b);
      var head := ParseEntry(a[0]);
      var h := if head.Some? then [head.value] else [];
      assert ParseEntries(a + b) == h + ParseEntries(a[1..] + b);
      assert h + (ParseEntries(a[1..]) + ParseEntries(b)) == (h + ParseEntries(a[1..])) + ParseEntries(b);
    } else {
      assert a + b == b;
    }
  }

  /** The empty stored string is one empty entry, which parses to
      nothing, so decoding is parsing every comma-separated entry. */
  lemma DecodeIsParse(raw: string)
    ensures Decode(raw) == ParseEntries(Split(raw, ','))
  {
    if raw == [] {
      assert Split(raw, ',') == [[]];
      assert Split([], ':') == [[]];
      assert ParseEntries([[]]) == [] + ParseEntries([]);
    }
  }

  /** Decoding is entry-wise: the records of two stored strings joined by a
      comma are the records of each, in order. */
  lemma DecodeAppend(a: string, b: string)
    ensures Decode(a + "," + b) == Decode(a) + Decode(b)
  {
    assert a + "," + b == a + [','] + b;
    SplitAround(a, ',', b);
    ParseEntriesAppend(Split(a, ','), Split(b, ','));
    DecodeIsParse(a);
    DecodeIsParse(b);
    DecodeIsParse(a + "," + b);
  }

  /** A malformed entry (wrong field count or a field that is not an `Int`)
      appended after a comma is skipped and loses none of the valid ones;
      the empty entry left by a trailing comma is one such entry. */
  lemma DecodeSkipsMalformed(a: string, bad: string)
    requires ',' !in bad
    requires ParseEntry(bad).None?
    ensures Decode(a + "," + bad) == Decode(a)
  {
    assert a + "," + bad == a + [','] + bad;
    SplitAround(a, ',', bad);
    SplitWithoutSeparator(bad, ',');
    ParseEntriesAppend(Split(a, ','), [bad]);
    assert ParseEntries([bad]) == [];
    DecodeIsParse(a);
    DecodeIsParse(a + "," + bad);
  }

  lemma EntryRoundTrip(h: HighScore)
    requires IsRecord(h)
    ensures ',' !in EntryText(h)
    ensures ParseEntry(EntryText(h)) == Some(h)
  {
    var s, w := IntToString(h.score), IntToString(h.wave);
    PrintHasNoSeparator(h.score, ':');
    PrintHasNoSeparator(h.wave, ':');
    PrintHasNoSeparator(h.score, ',');
    PrintHasNoSeparator(h.wave, ',');
    assert EntryText(h) == s + [':'] + w;
    SplitAround(s, ':', w);
    SplitWithoutSeparator(s, ':');
    SplitWithoutSeparator(w, ':');
    ParseOfPrint(h.score);
    ParseOfPrint(h.wave);
  }

  /** Parsing the rendered entries of some records gives those records. */
  lemma {:induction false} ParseEntriesOfEntries(es: seq<string>, xs: seq<HighScore>)
    requires |es| == |xs|
    requires forall k :: 0 <= k < |xs| ==> IsRecord(xs[k]) && es[k] == EntryText(xs[k])
    ensures ParseEntries(es) == xs
  {
    if xs != [] {
      EntryRoundTrip(xs[0]);
      assert ParseEntry(es[0]) == Some(xs[0]);
      assert forall k :: 0 <= k < |xs| - 1 ==> es[1..][k] == es[k + 1] && xs[1..][k] == xs[k + 1];
      ParseEntriesOfEntries(es[1..], xs[1..]);
      assert ParseEntries(es) == [xs[0]] + ParseEntries(es[1..]);
      assert xs == [xs[0]] + xs[1..];
    }
  }

  /** Reading back what was stored gives the same list of records. */
  lemma DecodeOfEncode(xs: seq<HighScore>)
    requires forall k :: 0 <= k < |xs| ==> IsRecord(xs[k])
    ensures Decode(Encode(xs)) == xs
  {
    if xs != [] {
      var es := seq(|xs|, k requires 0 <= k < |xs| => EntryText(xs[k]));
      forall k | 0 <= k < |es|
        ensures ',' !in es[k]
      {
        EntryRoundTrip(xs[k]);
      }
      EntryRoundTrip(xs[0]);
      assert ':' in EntryText(xs[0]);
      assert Encode(xs) != [] by {
        if |es| == 1 {
          assert Encode(xs) == es[0];
        }
      }
      SplitOfJoin(es, ',');
      ParseEntriesOfEntries(es, xs);
    }
  }

  // ---------------------------------------------------------------------
  // The preference store.

  /** The single preference cell that holds the encoded ledger; a missing
      value reads as the empty string. */
  class ScoreStore {
    var raw: string

    constructor ()
      ensures raw == []
    {
      raw := [];
    }

    /** `getScores`. */
    function GetScores(): (r: seq<HighScore>)
      reads this
      ensures forall k :: 0 <= k < |r| ==> IsRecord(r[k])
      ensures raw == [] ==> r == []
    {
      Decode(raw)
    }

    /** `saveScore`: read the ledger, add the record, rank, keep five, write
        back the encoding. */
    method SaveScore(score: int, wave: int)
      requires IsInt(score) && IsInt(wave)
      modifies this
      ensures raw == Encode(TopScores(old(GetScores()), HighScore(score, wave)))
      ensures GetScores() == TopScores(old(GetScores()), HighScore(score, wave))
    {
      var scores := GetScores();
      ghost var before := scores;
      scores := scores + [HighScore(score, wave)];
      var sorted := SortByRank(scores);
      var kept := if |scores| <= MaxScores then |scores| else MaxScores;
      sorted := sorted[..kept];
      raw := Encode(sorted);
      TopScoresShape(before, HighScore(score, wave));
      forall k | 0 <= k < |sorted|
        ensures IsRecord(sorted[k])
      {
        assert sorted[k] in sorted;
      }
      DecodeOfEncode(sorted);
    }
  }
}
