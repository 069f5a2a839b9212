/** What `coalesceStreams` computes, on output records: each maximal run of
    adjacent stream outputs with the same stream name becomes the run's
    first output, carrying the text of the whole run. */
module Streams {
  import opened Wrappers
  import opened Text
  import opened Records

  predicate IsStream(r: OutputRecord)
  {
    r.outputType == "stream"
  }

  /** The merge test of the pass: `o` continues the run headed by `last`
      when both are stream outputs of the same stream. */
  predicate Continues(last: OutputRecord, o: OutputRecord)
  {
    IsStream(o) && IsStream(last) && o.stream == last.stream
  }

  /** `last.raw.text = last.raw.text.concat(o.raw.text)`. */
  function Absorb(last: OutputRecord, o: OutputRecord): OutputRecord
  {
    last.(text := last.text + o.text)
  }

  /** One step of the pass: `o` is merged into the last kept output when it
      continues that output's run, and kept otherwise. */
  function Push(acc: seq<OutputRecord>, o: OutputRecord): (r: seq<OutputRecord>)
    ensures |r| == (if acc != [] && Continues(acc[|acc| - 1], o) then |acc| else |acc| + 1)
  {
    if acc != [] && Continues(acc[|acc| - 1], o) then acc[..|acc| - 1] + [Absorb(acc[|acc| - 1], o)]
    else acc + [o]
  }

  /** The outputs the pass returns once it has seen `rs`, left to right. */
  function Coalesced(rs: seq<OutputRecord>): (r: seq<OutputRecord>)
    ensures |r| <= |rs|
    ensures r == [] <==> rs == []
  {
    if rs == [] then [] else Push(Coalesced(rs[..|rs| - 1]), rs[|rs| - 1])
  }

  lemma CoalescedStep(rs: seq<OutputRecord>, i: nat)
    requires i < |rs|
    ensures Coalesced(rs[..i + 1]) == Push(Coalesced(rs[..i]), rs[i])
  {
    assert rs[..i + 1][..i] == rs[..i];
  }

  /** The outputs the pass holds after its first `n` steps. */
  function CoalescedPrefix(rs: seq<OutputRecord>, n: nat): seq<OutputRecord>
    requires n <= |rs|
  {
    if n == 0 then [] else Push(CoalescedPrefix(rs, n - 1), rs[n - 1])
  }

  lemma {:induction false} CoalescedPrefixIsCoalesced(rs: seq<OutputRecord>, n: nat)
    requires n <= |rs|
    ensures CoalescedPrefix(rs, n) == Coalesced(rs[..n])
  {
    if n == 0 {
      assert rs[..n] == [];
    } else {
      var acc := CoalescedPrefix(rs, n - 1);
      assert acc == Coalesced(rs[..n - 1]) by {
        CoalescedPrefixIsCoalesced(rs, n - 1);
      }
      assert Coalesced(rs[..n]) == Push(acc, rs[n - 1]) by {
        CoalescedStep(rs, n - 1);
      }
    }
  }

  /** A step of the pass changes the first output at most by appending to
      its text. */
  lemma PushHead(acc: seq<OutputRecord>, o: OutputRecord)
    requires acc != []
    ensures Push(acc, o)[0] == acc[0].(text := Push(acc, o)[0].text)
    ensures acc[0].text <= Push(acc, o)[0].text
  {
    if Continues(acc[|acc| - 1], o) && |acc| == 1 {
      assert Push(acc, o)[0] == Absorb(acc[0], o);
    } else {
      assert Push(acc, o)[0] == acc[0];
    }
  }

  /** The first output of the result is the first output of the input, with
      the text of its run appended to its own text. */
  lemma {:induction false} CoalescedHead(rs: seq<OutputRecord>)
    requires rs != []
    ensures Coalesced(rs)[0] == rs[0].(text := Coalesced(rs)[0].text)
    ensures rs[0].text <= Coalesced(rs)[0].text
  {
    var prefix := rs[..|rs| - 1];
    if |rs| == 1 {
      assert prefix == [];
      assert Coalesced(rs) == Push([], rs[0]) == [rs[0]];
    } else {
      CoalescedHead(prefix);
      assert prefix[0] == rs[0];
      assert Coalesced(rs) == Push(Coalesced(prefix), rs[|rs| - 1]);
      PushHead(Coalesced(prefix), rs[|rs| - 1]);
    }
  }

  predicate NoAdjacentContinuation(rs: seq<OutputRecord>)
  {
    forall i :: 0 <= i < |rs| - 1 ==> !Continues(rs[i], rs[i + 1])
  }

  /** A step of the pass keeps adjacent outputs apart: a merged output
      keeps the stream of the run it heads, and a kept output does not
      continue its predecessor. */
  lemma PushKeepsSeparated(acc: seq<OutputRecord>, o: OutputRecord)
    requires NoAdjacentContinuation(acc)
    ensures NoAdjacentContinuation(Push(acc, o))
  {
    var r := Push(acc, o);
    if acc != [] && Continues(acc[|acc| - 1], o) {
      var n := |acc|;
      assert r == acc[..n - 1] + [Absorb(acc[n - 1], o)];
      forall i | 0 <= i < |r| - 1 ensures !Continues(r[i], r[i + 1]) {
        assert r[i] == acc[i];
        if i + 1 < n - 1 {
          assert r[i + 1] == acc[i + 1];
        } else {
          assert !Continues(acc[i], acc[i + 1]);
        }
      }
    } else {
      assert r == acc + [o];
      forall i | 0 <= i < |r| - 1 ensures !Continues(r[i], r[i + 1]) {
        assert r[i] == acc[i];
        if i + 1 < |acc| {
          assert r[i + 1] == acc[i + 1];
        }
      }
    }
  }

  /** No two adjacent outputs of the result belong to the same stream. */
  lemma {:induction false} CoalescedHasNoAdjacentContinuation(rs: seq<OutputRecord>)
    ensures NoAdjacentContinuation(Coalesced(rs))
  {
    if rs != [] {
      var prefix := rs[..|rs| - 1];
      CoalescedHasNoAdjacentContinuation(prefix);
      PushKeepsSeparated(Coalesced(prefix), rs[|rs| - 1]);
    }
  }

  /** The pass leaves a sequence without adjacent same-stream outputs as it
      is. */
  lemma {:induction false} CoalescedOfSeparated(rs: seq<OutputRecord>)
    requires NoAdjacentContinuation(rs)
    ensures Coalesced(rs) == rs
  {
    if rs != [] {
      var prefix := rs[..|rs| - 1];
      assert NoAdjacentContinuation(prefix) by {
        forall i | 0 <= i < |prefix| - 1 ensures !Continues(prefix[i], prefix[i + 1]) {
          assert prefix[i] == rs[i] && prefix[i + 1] == rs[i + 1];
        }
      }
      CoalescedOfSeparated(prefix);
      if |rs| > 1 {
        assert !Continues(rs[|rs| - 2], rs[|rs| - 1]);
      }
      assert prefix + [rs[|rs| - 1]] == rs;
    }
  }

  /** Coalescing twice is the same as coalescing once. */
  lemma CoalescedIdempotent(rs: seq<OutputRecord>)
    ensures Coalesced(Coalesced(rs)) == Coalesced(rs)
  {
    CoalescedHasNoAdjacentContinuation(rs);
    CoalescedOfSeparated(Coalesced(rs));
  }

  /** A step of the pass only looks at the last kept output, so a prefix
      ahead of a non-empty accumulation is carried along unchanged. */
  lemma PushAfter(p: seq<OutputRecord>, q: seq<OutputRecord>, o: OutputRecord)
    requires q != []
    ensures Push(p + q, o) == p + Push(q, o)
  {
    var n := |p + q|;
    assert (p + q)[n - 1] == q[|q| - 1];
    if Continues(q[|q| - 1], o) {
      assert (p + q)[..n - 1] == p + q[..|q| - 1];
    }
  }

  /** A non-stream output separates runs: nothing after it is merged into
      anything before it. */
  lemma {:induction false} CoalescedSplitsAtNonStream(a: seq<OutputRecord>, x: OutputRecord, b: seq<OutputRecord>)
    requires !IsStream(x)
    ensures Coalesced(a + [x] + b) == Coalesced(a) + Coalesced([x] + b)
    decreases |b|
  {
    if b == [] {
      assert a + [x] + b == a + [x] && [x] + b == [x];
      assert ([x] + b)[..0] == [];
      assert (a + [x])[..|a|] == a;
    } else {
      var b', y := b[..|b| - 1], b[|b| - 1];
      assert a + [x] + b == (a + [x] + b') + [y] && [x] + b == ([x] + b') + [y];
      assert (a + [x] + b' + [y])[..|a + [x] + b'|] == a + [x] + b';
      assert ([x] + b' + [y])[..|[x] + b'|] == [x] + b';
      CoalescedSplitsAtNonStream(a, x, b');
      PushAfter(Coalesced(a), Coalesced([x] + b'), y);
    }
  }

  /** The non-stream outputs, in order. */
  function NonStreams(rs: seq<OutputRecord>): seq<OutputRecord>
  {
    if rs == [] then []
    else NonStreams(rs[..|rs| - 1]) + (if IsStream(rs[|rs| - 1]) then [] else [rs[|rs| - 1]])
  }

  lemma NonStreamsSnoc(rs: seq<OutputRecord>, x: OutputRecord)
    ensures NonStreams(rs + [x]) == NonStreams(rs) + (if IsStream(x) then [] else [x])
  {
    assert (rs + [x])[..|rs|] == rs;
  }

  /** Every non-stream output appears in the result exactly once, unchanged
      and in its original relative order. */
  lemma {:induction false} CoalescedKeepsNonStreams(rs: seq<OutputRecord>)
    ensures NonStreams(Coalesced(rs)) == NonStreams(rs)
  {
    if rs != [] {
      var prefix := rs[..|rs| - 1];
      var o := rs[|rs| - 1];
      var acc := Coalesced(prefix);
      CoalescedKeepsNonStreams(prefix);
      if acc != [] && Continues(acc[|acc| - 1], o) {
        var init := acc[..|acc| - 1];
        assert acc == init + [acc[|acc| - 1]];
        NonStreamsSnoc(init, acc[|acc| - 1]);
        NonStreamsSnoc(init, Absorb(acc[|acc| - 1], o));
      } else {
        NonStreamsSnoc(acc, o);
      }
    }
  }

  /** Which stream text to collect: that of every stream, or that of the
      stream with one name. */
  datatype Channel = AnyStream | Named(name: Option<string>)

  predicate OnChannel(r: OutputRecord, ch: Channel)
  {
    IsStream(r) && (ch.Named? ==> r.stream == ch.name)
  }

  /** The text fragments of the stream outputs on a channel, in order. */
  function Fragments(rs: seq<OutputRecord>, ch: Channel): seq<string>
  {
    if rs == [] then []
    else Fragments(rs[..|rs| - 1], ch) + (if OnChannel(rs[|rs| - 1], ch) then rs[|rs| - 1].text else [])
  }

  lemma FragmentsSnoc(rs: seq<OutputRecord>, x: OutputRecord, ch: Channel)
    ensures Fragments(rs + [x], ch) == Fragments(rs, ch) + (if OnChannel(x, ch) then x.text else [])
  {
    assert (rs + [x])[..|rs|] == rs;
  }

  /** Merging `o` into the run headed by `last` moves `o`'s fragments, not
      changing the fragments on any channel. */
  lemma FragmentsOfAbsorb(init: seq<OutputRecord>, last: OutputRecord, o: OutputRecord, ch: Channel)
    requires Continues(last, o)
    ensures Fragments(init + [Absorb(last, o)], ch)
            == Fragments(init + [last], ch) + (if OnChannel(o, ch) then o.text else [])
  {
    FragmentsSnoc(init, last, ch);
    FragmentsSnoc(init, Absorb(last, o), ch);
  }

  /** Coalescing keeps the stream text: the fragments of all streams, and of
      each stream on its own, are the same before and after, in the same
      order. */
  lemma {:induction false} CoalescedKeepsFragments(rs: seq<OutputRecord>, ch: Channel)
    ensures Fragments(Coalesced(rs), ch) == Fragments(rs, ch)
  {
    if rs != [] {
      var prefix, o := rs[..|rs| - 1], rs[|rs| - 1];
      var acc := Coalesced(prefix);
      assert rs == prefix + [o];
      FragmentsSnoc(prefix, o, ch);
      CoalescedKeepsFragments(prefix, ch);
      if acc != [] && Continues(acc[|acc| - 1], o) {
        var init, last := acc[..|acc| - 1], acc[|acc| - 1];
        assert acc == init + [last];
        assert Coalesced(rs) == init + [Absorb(last, o)];
        FragmentsOfAbsorb(init, last, o, ch);
      } else {
        assert Coalesced(rs) == acc + [o];
        FragmentsSnoc(acc, o, ch);
      }
    }
  }

  /** The concatenated text of all stream outputs is the same before and
      after coalescing. */
  lemma CoalescedKeepsStreamText(rs: seq<OutputRecord>)
    ensures Concat(Fragments(Coalesced(rs), AnyStream)) == Concat(Fragments(rs, AnyStream))
  {
    CoalescedKeepsFragments(rs, AnyStream);
  }

  /** Two adjacent `stdout` outputs with texts `["a"]` and `["b"]` become one
      output whose text reads `"ab"`. */
  lemma TwoStdoutFragmentsMerge(a: OutputRecord, b: OutputRecord)
    requires a.outputType == "stream" && b.outputType == "stream"
    requires a.stream == Some("stdout") && b.stream == Some("stdout")
    requires a.text == ["a"] && b.text == ["b"]
    ensures |Coalesced([a, b])| == 1
    ensures Concat(Coalesced([a, b])[0].text) == "ab"
  {
    assert [a, b][..1] == [a];
    assert Coalesced([a]) == [a];
    assert Coalesced([a, b])[0].text == ["a", "b"];
    assert Concat(["a", "b"]) == "a" + Concat(["b"]);
    assert Concat(["b"]) == "b" + Concat([]);
  }
}
