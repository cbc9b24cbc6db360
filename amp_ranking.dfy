/** The parsing and counting body of `plot_amp_histogram` in `PLMs/src/Ranking-AMPS.py`:
    count, per sequence length, the ranked sequences whose AMP probability is at
    least 0.5. The file's lines are given as a list, and Python's `float(...)` is
    the abstract partial parse `parseFloat`. */
module AmpRanking {
  import opened Common
  import opened Text

  /** `lines[1:]`: everything after the header line. */
  function Body(lines: seq<string>): (r: seq<string>)
    ensures |lines| > 0 ==> [lines[0]] + r == lines
    ensures |lines| == 0 ==> r == []
  {
    if |lines| == 0 then [] else lines[1..]
  }

  /** The length one line contributes, if any: a non-blank line of exactly three
      fields `ID CLASS PROB` whose probability parses and is at least 0.5, and
      whose ID has a second `_`-separated field that is an integer. */
  function AcceptedLength(line: string, parseFloat: string -> Option<real>): (r: Option<int>)
    ensures r.Some? ==>
      !IsBlank(line) && |Words(line)| == 3 &&
      parseFloat(Words(line)[2]).Some? && parseFloat(Words(line)[2]).value >= 0.5
  {
    if IsBlank(line) then None
    else
      var parts := Words(line);
      if |parts| != 3 then None
      else
        match parseFloat(parts[2])
        case None => None
        case Some(prob) =>
          if prob >= 0.5 then
            var idParts := SplitOn(parts[0], '_');
            if |idParts| >= 2 then ParseInt(idParts[1]) else None
          else None
  }

  function Emitted(o: Option<int>): seq<int>
  {
    match o
    case None => []
    case Some(k) => [k]
  }

  /** The lengths contributed by `lines`, one per accepted line, in line order. */
  function AcceptedLengths(lines: seq<string>, parseFloat: string -> Option<real>): seq<int>
  {
    if lines == [] then []
    else AcceptedLengths(lines[..|lines| - 1], parseFloat) + Emitted(AcceptedLength(lines[|lines| - 1], parseFloat))
  }

  lemma AcceptedStep(lines: seq<string>, i: nat, parseFloat: string -> Option<real>)
    requires i < |lines|
    ensures AcceptedLengths(lines[..i + 1], parseFloat) ==
      AcceptedLengths(lines[..i], parseFloat) + Emitted(AcceptedLength(lines[i], parseFloat))
  {
    assert lines[..i + 1][..i] == lines[..i];
  }

  /** Lines are judged one at a time: the accepted lengths of two blocks of lines
      are those of the first block followed by those of the second. */
  lemma {:induction false} AcceptedAppend(a: seq<string>, b: seq<string>, parseFloat: string -> Option<real>)
    ensures AcceptedLengths(a + b, parseFloat) == AcceptedLengths(a, parseFloat) + AcceptedLengths(b, parseFloat)
    decreases |b|
  {
    if b == [] {
      assert a + b == a;
    } else {
      var b' := b[..|b| - 1];
      assert (a + b)[..|a + b| - 1] == a + b';
      assert (a + b)[|a + b| - 1] == b[|b| - 1];
      AcceptedAppend(a, b', parseFloat);
    }
  }

  lemma SkippedLineAlone(line: string, parseFloat: string -> Option<real>)
    requires AcceptedLength(line, parseFloat) == None
    ensures AcceptedLengths([line], parseFloat) == []
  {
    AcceptedStep([line], 0, parseFloat);
    assert [line][..0] == [] && [line][..1] == [line];
  }

  /** A skipped line (blank, malformed, unparsable, improbable or without a length)
      can be removed from anywhere without changing the result. */
  lemma SkippedLineContributesNothing(a: seq<string>, line: string, b: seq<string>, parseFloat: string -> Option<real>)
    requires AcceptedLength(line, parseFloat) == None
    ensures AcceptedLengths(a + [line] + b, parseFloat) == AcceptedLengths(a + b, parseFloat)
  {
    SkippedLineAlone(line, parseFloat);
    AcceptedAppend(a + [line], b, parseFloat);
    AcceptedAppend(a, [line], parseFloat);
    AcceptedAppend(a, b, parseFloat);
  }

  /** The documented ID shape `LENGTH_X_SEQ_Y`. */
  function AmpId(length: int, index: nat): string
  {
    JoinWith(["LENGTH", ShowInt(length), "SEQ", ShowNat(index)], '_')
  }

  lemma AmpIdPlain(length: int, index: nat)
    ensures |AmpId(length, index)| > 0 && NoSpace(AmpId(length, index))
  {
    var fields := ["LENGTH", ShowInt(length), "SEQ", ShowNat(index)];
    ShowIntPlain(length);
    ShowIntPlain(index);
    assert NoSpace("LENGTH") && NoSpace("SEQ");
    JoinWithNoSpace(fields, '_');
  }

  /** A well-formed ranking line `LENGTH_n_SEQ_y <class> <p>` is counted under
      length `n` exactly when `p` parses to at least 0.5 and `n` has at most
      `MaxStrDigits` digits; the class label plays no part. */
  lemma AcceptedRecord(length: int, index: nat, classLabel: string, prob: string, parseFloat: string -> Option<real>)
    requires |classLabel| > 0 && NoSpace(classLabel) && |prob| > 0 && NoSpace(prob)
    ensures AcceptedLength(Record3(AmpId(length, index), classLabel, prob), parseFloat) ==
      if parseFloat(prob).Some? && parseFloat(prob).value >= 0.5 && |ShowNat(Magnitude(length))| <= MaxStrDigits
      then Some(length) else None
  {
    var id := AmpId(length, index);
    var line := Record3(id, classLabel, prob);
    AmpIdPlain(length, index);
    WordsOfRecord3(id, classLabel, prob);
    assert !IsBlank(line) by {
      assert line[0] == id[0];
    }
    ShowIntPlain(length);
    ShowIntPlain(index);
    var fields := ["LENGTH", ShowInt(length), "SEQ", ShowNat(index)];
    SplitJoin(fields, '_');
    ParseShowInt(length);
  }

  predicate StrictlyIncreasing(s: seq<int>)
  {
    forall i, j :: 0 <= i < j < |s| ==> s[i] < s[j]
  }

  lemma SetHasMember(s: set<int>)
    ensures s == {} || exists m :: m in s
  {
    if forall m :: m !in s {
      assert s == {};
    }
  }

  lemma {:induction false} MinExists(s: set<int>)
    requires s != {}
    ensures exists m :: m in s && forall x :: x in s ==> m <= x
    decreases |s|
  {
    SetHasMember(s);
    var y :| y in s;
    if s != {y} {
      MinExists(s - {y});
      var m :| m in s - {y} && forall x :: x in s - {y} ==> m <= x;
      var least := if y < m then y else m;
      forall x | x in s ensures least <= x {
        if x != y {
          assert x in s - {y};
        }
      }
    } else {
      assert forall x :: x in s ==> y <= x;
    }
  }

  /** `sorted(amp_counts.keys())`: the keys in strictly ascending order. */
  function SortedKeys(s: set<int>): (r: seq<int>)
    ensures StrictlyIncreasing(r)
    ensures forall k :: k in r <==> k in s
    decreases |s|
  {
    if s == {} then []
    else
      MinExists(s);
      var m :| m in s && forall x :: x in s ==> m <= x;
      var rest := SortedKeys(s - {m});
      assert forall k :: k in rest ==> m < k;
      assert StrictlyIncreasing([m] + rest) by {
        forall i, j | 0 <= i < j < |rest| + 1 ensures ([m] + rest)[i] < ([m] + rest)[j] {
          assert ([m] + rest)[j] == rest[j - 1] && rest[j - 1] in rest;
          if i > 0 {
            assert ([m] + rest)[i] == rest[i - 1];
          }
        }
      }
      [m] + rest
  }

  function Sum(s: seq<nat>): nat
  {
    if s == [] then 0 else s[0] + Sum(s[1..])
  }

  /** `s` with every occurrence of `k` removed. */
  function Without(s: seq<int>, k: int): seq<int>
  {
    if s == [] then [] else (if s[0] == k then [] else [s[0]]) + Without(s[1..], k)
  }

  lemma {:induction false} WithoutFacts(s: seq<int>, k: int)
    ensures forall x :: x in Without(s, k) <==> x in s && x != k
    ensures forall x :: x != k ==> multiset(Without(s, k))[x] == multiset(s)[x]
    ensures |Without(s, k)| + multiset(s)[k] == |s|
  {
    if s != [] {
      WithoutFacts(s[1..], k);
      assert s == [s[0]] + s[1..];
    }
  }

  lemma NonEmptyHasMember(s: seq<int>)
    ensures |s| > 0 ==> s[0] in s
  {
  }

  /** Counts aligned with the distinct keys of a list of lengths add up to the list's length. */
  lemma {:induction false} SumOfCounts(keys: seq<int>, counts: seq<nat>, acc: seq<int>)
    requires |counts| == |keys|
    requires forall i, j :: 0 <= i < j < |keys| ==> keys[i] != keys[j]
    requires forall k :: k in acc <==> k in keys
    requires forall i :: 0 <= i < |keys| ==> counts[i] == multiset(acc)[keys[i]]
    ensures Sum(counts) == |acc|
    decreases |keys|
  {
    if keys == [] {
      NonEmptyHasMember(acc);
    } else {
      var k := keys[0];
      var rest := Without(acc, k);
      WithoutFacts(acc, k);
      forall x ensures x in rest <==> x in keys[1..] {
        if x in keys[1..] {
          var j :| 1 <= j < |keys| && keys[j] == x;
          assert x in keys;
        }
        if x in keys && x != k {
          var j :| 0 <= j < |keys| && keys[j] == x;
          assert j != 0;
          assert keys[1..][j - 1] == x;
        }
      }
      forall i | 0 <= i < |keys| - 1 ensures counts[1..][i] == multiset(rest)[keys[1..][i]] {
        assert keys[1..][i] == keys[i + 1] != k;
      }
      SumOfCounts(keys[1..], counts[1..], rest);
    }
  }

  /** `counts` is the dictionary of occurrence counts of `acc`. */
  ghost predicate Tallies(counts: map<int, nat>, acc: seq<int>)
  {
    (forall k :: k in counts <==> k in acc) &&
    (forall k :: k in counts ==> counts[k] == multiset(acc)[k])
  }

  /** `counts[k] += 1`, or `counts[k] = 1` for a new key, tallies one more occurrence. */
  lemma TallyOne(counts: map<int, nat>, acc: seq<int>, k: int)
    requires Tallies(counts, acc)
    ensures Tallies(counts[k := if k in counts then counts[k] + 1 else 1], acc + [k])
  {
    assert multiset(acc + [k]) == multiset(acc) + multiset{k};
  }

  /** Reading a tally out by its sorted keys lists every counted value once,
      ascending, with its number of occurrences; the counts add up to the total. */
  lemma EmitTallies(m: map<int, nat>, acc: seq<int>, lengths: seq<int>, counts: seq<nat>)
    requires Tallies(m, acc)
    requires StrictlyIncreasing(lengths) && forall k :: k in lengths <==> k in m.Keys
    requires |counts| == |lengths|
    requires forall i :: 0 <= i < |lengths| ==> lengths[i] in m && counts[i] == m[lengths[i]]
    ensures forall k :: k in lengths <==> k in acc
    ensures forall i :: 0 <= i < |lengths| ==> counts[i] == multiset(acc)[lengths[i]] && counts[i] >= 1
    ensures Sum(counts) == |acc|
  {
    forall i | 0 <= i < |lengths| ensures counts[i] == multiset(acc)[lengths[i]] >= 1 {
      assert lengths[i] in m.Keys;
      assert lengths[i] in acc;
    }
    SumOfCounts(lengths, counts, acc);
  }

  /** The counting body of `plot_amp_histogram`: skip the header, count each
      accepted line under its length in a dictionary, then emit the lengths in
      ascending order with their counts aligned. */
  method AmpHistogram(lines: seq<string>, parseFloat: string -> Option<real>)
    returns (lengths: seq<int>, counts: seq<nat>)
    ensures StrictlyIncreasing(lengths)
    ensures forall k :: k in lengths <==> k in AcceptedLengths(Body(lines), parseFloat)
    ensures |counts| == |lengths|
    ensures forall i :: 0 <= i < |lengths| ==>
      counts[i] == multiset(AcceptedLengths(Body(lines), parseFloat))[lengths[i]] && counts[i] >= 1
    ensures Sum(counts) == |AcceptedLengths(Body(lines), parseFloat)|
  {
    var ampCounts: map<int, nat> := map[];
    var body := Body(lines);
    for i := 0 to |body|
      invariant Tallies(ampCounts, AcceptedLengths(body[..i], parseFloat))
    {
      AcceptedStep(body, i, parseFloat);
      ghost var before := AcceptedLengths(body[..i], parseFloat);
      var line := body[i];
      ghost var outcome := AcceptedLength(line, parseFloat);
      if IsBlank(line) {
        assert outcome == None;
        continue;
      }
      var parts := Words(line);
      if |parts| != 3 {
        assert outcome == None;
        continue;
      }
      var seqId, classLabel, probStr := parts[0], parts[1], parts[2];
      var prob := parseFloat(probStr);
      if prob.None? {
        assert outcome == None;
        continue;
      }
      if prob.value >= 0.5 {
        var seqIdParts := SplitOn(seqId, '_');
        if |seqIdParts| >= 2 {
          var length := ParseInt(seqIdParts[1]);
          if length.None? {
            assert outcome == None;
            continue;
          }
          assert outcome == Some(length.value);
          TallyOne(ampCounts, before, length.value);
          if length.value in ampCounts {
            ampCounts := ampCounts[length.value := ampCounts[length.value] + 1];
          } else {
            ampCounts := ampCounts[length.value := 1];
          }
        } else {
          assert outcome == None;
        }
      } else {
        assert outcome == None;
      }
    }
    assert body[..|body|] == body;
    lengths := SortedKeys(ampCounts.Keys);
    counts := seq(|lengths|, i requires 0 <= i < |lengths| => ampCounts[lengths[i]]);
    EmitTallies(ampCounts, AcceptedLengths(body, parseFloat), lengths, counts);
  }
}
