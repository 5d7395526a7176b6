/** Messages for the model, and the merging of neighbouring system messages. */
module Messages {
  import opened Common

  datatype Role = System | Speaker(name: string)

  datatype Message = Message(role: Role, content: string, source: seq<string>, attachments: seq<string>)

  function Sources(ms: seq<Message>): seq<string> {
    if ms == [] then [] else ms[0].source + Sources(ms[1..])
  }

  function Attachments(ms: seq<Message>): seq<string> {
    if ms == [] then [] else ms[0].attachments + Attachments(ms[1..])
  }

  function Contents(ms: seq<Message>): (r: seq<string>)
    ensures |r| == |ms|
  {
    if ms == [] then [] else [ms[0].content] + Contents(ms[1..])
  }

  /** `parts.join("\n\n")`. */
  function Join(parts: seq<string>): string {
    if parts == [] then ""
    else if |parts| == 1 then parts[0]
    else parts[0] + "\n\n" + Join(parts[1..])
  }

  /** The contents with an empty line between each two. */
  function Joined(ms: seq<Message>): string {
    Join(Contents(ms))
  }

  function Spoken(ms: seq<Message>): seq<Message> {
    if ms == [] then []
    else if ms[0].role.System? then Spoken(ms[1..])
    else [ms[0]] + Spoken(ms[1..])
  }

  ghost predicate AllSystem(ms: seq<Message>) {
    forall i | 0 <= i < |ms| :: ms[i].role.System?
  }

  ghost predicate NoSystemPair(ms: seq<Message>) {
    forall i | 0 <= i < |ms| - 1 :: !(ms[i].role.System? && ms[i + 1].role.System?)
  }

  function MergeRun(run: seq<Message>): (r: seq<Message>)
    ensures |r| == if run == [] then 0 else 1
  {
    if run == [] then []
    else if |run| == 1 then run
    else [Message(System, Joined(run), Sources(run), Attachments(run))]
  }

  /** System messages are gathered in `run` until another message, or the end, comes. */
  function MergeFrom(run: seq<Message>, ms: seq<Message>): seq<Message>
    decreases |ms|
  {
    if ms == [] then MergeRun(run)
    else if ms[0].role.System? then MergeFrom(run + [ms[0]], ms[1..])
    else MergeRun(run) + [ms[0]] + MergeFrom([], ms[1..])
  }

  function Merge(ms: seq<Message>): seq<Message> {
    MergeFrom([], ms)
  }

  method MergeAdjacentSystemMessages(messages: seq<Message>) returns (result: seq<Message>)
    ensures result == Merge(messages)
  {
    result := [];
    var run: seq<Message> := [];
    for i := 0 to |messages|
      invariant Merge(messages) == result + MergeFrom(run, messages[i..])
    {
      var message := messages[i];
      ghost var rest := messages[i + 1..];
      assert messages[i..][1..] == rest;
      if message.role.System? {
        run := run + [message];
      } else {
        Regroup(result, MergeRun(run) + [message], MergeFrom([], rest));
        result := result + (MergeRun(run) + [message]);
        run := [];
      }
    }
    result := result + MergeRun(run);
  }

  // ---------------------------------------------------------------------------
  // Laws
  // ---------------------------------------------------------------------------

  lemma {:induction false} SourcesConcat(a: seq<Message>, b: seq<Message>)
    ensures Sources(a + b) == Sources(a) + Sources(b) && Attachments(a + b) == Attachments(a) + Attachments(b)
  {
    if a == [] {
      assert a + b == b;
    } else {
      assert (a + b)[1..] == a[1..] + b;
      SourcesConcat(a[1..], b);
      assert a[0].source + (Sources(a[1..]) + Sources(b)) == Sources(a) + Sources(b);
      assert a[0].attachments + (Attachments(a[1..]) + Attachments(b)) == Attachments(a) + Attachments(b);
    }
  }

  lemma {:induction false} SpokenConcat(a: seq<Message>, b: seq<Message>)
    ensures Spoken(a + b) == Spoken(a) + Spoken(b)
  {
    if a == [] {
      assert a + b == b;
    } else {
      assert (a + b)[1..] == a[1..] + b;
      SpokenConcat(a[1..], b);
    }
  }

  lemma {:induction false} JoinConcat(a: seq<string>, b: seq<string>)
    requires a != [] && b != []
    ensures Join(a + b) == Join(a) + "\n\n" + Join(b)
  {
    assert (a + b)[1..] == a[1..] + b;
    if |a| > 1 {
      JoinConcat(a[1..], b);
      Regroup(a[0] + "\n\n", Join(a[1..]), "\n\n" + Join(b));
    }
  }

  lemma {:induction false} ContentsConcat(a: seq<Message>, b: seq<Message>)
    ensures Contents(a + b) == Contents(a) + Contents(b)
  {
    if a == [] {
      assert a + b == b;
    } else {
      assert (a + b)[1..] == a[1..] + b;
      ContentsConcat(a[1..], b);
    }
  }

  lemma JoinedConcat(a: seq<Message>, b: seq<Message>)
    requires a != [] && b != []
    ensures Joined(a + b) == Joined(a) + "\n\n" + Joined(b)
  {
    ContentsConcat(a, b);
    JoinConcat(Contents(a), Contents(b));
  }

  lemma {:induction false} SystemIsSilent(ms: seq<Message>)
    requires AllSystem(ms)
    ensures Spoken(ms) == []
  {
    if ms != [] { SystemIsSilent(ms[1..]); }
  }

  lemma RunKeeps(run: seq<Message>)
    requires AllSystem(run)
    ensures Sources(MergeRun(run)) == Sources(run) && Attachments(MergeRun(run)) == Attachments(run)
    ensures Joined(MergeRun(run)) == Joined(run) && Spoken(MergeRun(run)) == Spoken(run) == []
    ensures AllSystem(MergeRun(run))
  {
    SystemIsSilent(run);
    if |run| > 1 {
      var one := MergeRun(run)[0];
      assert MergeRun(run) == [one];
      assert Contents([one]) == [one.content] + Contents([]);
      assert Sources([one]) == one.source + Sources([]) && Attachments([one]) == one.attachments + Attachments([]);
    }
  }

  /** What merging keeps: sources, attachments, what was said, and the text as a whole. */
  ghost predicate Keeps(after: seq<Message>, before: seq<Message>) {
    && Sources(after) == Sources(before) && Attachments(after) == Attachments(before)
    && Spoken(after) == Spoken(before) && Joined(after) == Joined(before)
    && (after == [] <==> before == [])
  }

  lemma KeepsConcat(a: seq<Message>, a': seq<Message>, b: seq<Message>, b': seq<Message>)
    requires Keeps(a', a) && Keeps(b', b)
    ensures Keeps(a' + b', a + b)
  {
    SourcesConcat(a, b);
    SourcesConcat(a', b');
    SpokenConcat(a, b);
    SpokenConcat(a', b');
    if a == [] {
      assert a + b == b && a' + b' == b';
    } else if b == [] {
      assert a + b == a && a' + b' == a';
    } else {
      JoinedConcat(a, b);
      JoinedConcat(a', b');
    }
  }

  lemma {:induction false} MergeFromKeeps(run: seq<Message>, ms: seq<Message>)
    requires AllSystem(run)
    ensures Keeps(MergeFrom(run, ms), run + ms)
    decreases |ms|
  {
    RunKeeps(run);
    if ms == [] {
      assert run + ms == run;
    } else if ms[0].role.System? {
      MergeFromKeeps(run + [ms[0]], ms[1..]);
      assert run + [ms[0]] + ms[1..] == run + ms;
    } else {
      OtherKeeps(run, ms);
    }
  }

  lemma {:induction false} OtherKeeps(run: seq<Message>, ms: seq<Message>)
    requires AllSystem(run) && ms != [] && !ms[0].role.System?
    ensures Keeps(MergeFrom(run, ms), run + ms)
    decreases |ms|, 0
  {
    var rest := MergeFrom([], ms[1..]);
    MergeFromKeeps([], ms[1..]);
    RunKeeps(run);
    assert [] + ms[1..] == ms[1..] && [ms[0]] + ms[1..] == ms;
    KeepsConcat([ms[0]], [ms[0]], ms[1..], rest);
    KeepsConcat(run, MergeRun(run), ms, [ms[0]] + rest);
    Regroup(MergeRun(run), [ms[0]], rest);
  }

  lemma {:induction false} MergeFromUnpairs(run: seq<Message>, ms: seq<Message>)
    ensures NoSystemPair(MergeFrom(run, ms))
    decreases |ms|
  {
    if ms != [] {
      if ms[0].role.System? {
        MergeFromUnpairs(run + [ms[0]], ms[1..]);
      } else {
        MergeFromUnpairs([], ms[1..]);
        PairsApart(MergeRun(run), ms[0], MergeFrom([], ms[1..]));
      }
    }
  }

  lemma PairsApart(run: seq<Message>, m: Message, rest: seq<Message>)
    requires |run| <= 1 && !m.role.System? && NoSystemPair(rest)
    ensures NoSystemPair(run + [m] + rest)
  {
    var all := run + [m] + rest;
    var k := |run|;
    assert all[k] == m;
    forall i | 0 <= i < |all| - 1 ensures !(all[i].role.System? && all[i + 1].role.System?) {
      if i > k { assert all[i] == rest[i - k - 1] && all[i + 1] == rest[i - k]; }
    }
  }

  lemma {:induction false} MergeUnpaired(run: seq<Message>, ms: seq<Message>)
    requires |run| <= 1 && AllSystem(run) && NoSystemPair(run + ms)
    ensures MergeFrom(run, ms) == run + ms
    decreases |ms|
  {
    if ms != [] {
      assert ms == [ms[0]] + ms[1..];
      assert (run + ms)[|run|] == ms[0] && forall i | 0 <= i < |run| :: (run + ms)[i] == run[i];
      assert |run| == 1 ==> !((run + ms)[0].role.System? && (run + ms)[1].role.System?);
      if ms[0].role.System? {
        assert run == [];
        assert [ms[0]] + ms[1..] == run + ms && run + [ms[0]] == [ms[0]];
        MergeUnpaired([ms[0]], ms[1..]);
      } else {
        assert NoSystemPair([] + ms[1..]) by {
          assert forall i | 0 <= i < |ms| - 1 :: ([] + ms[1..])[i] == (run + ms)[i + 1 + |run|];
        }
        MergeUnpaired([], ms[1..]);
        assert run + [ms[0]] + ms[1..] == run + ms;
      }
    }
  }

  /**
   * Merging keeps every source, attachment and text in order and every message of a speaker as it
   * is, leaves no two system messages side by side, changes nothing exactly when there were none,
   * and has nothing left to do when done again.
   */
  lemma MergeLaw(ms: seq<Message>)
    ensures Keeps(Merge(ms), ms) && NoSystemPair(Merge(ms))
    ensures Merge(ms) == ms <==> NoSystemPair(ms)
    ensures Merge(Merge(ms)) == Merge(ms)
  {
    MergeFromKeeps([], ms);
    MergeFromUnpairs([], ms);
    assert [] + ms == ms;
    if NoSystemPair(ms) { MergeUnpaired([], ms); }
    assert [] + Merge(ms) == Merge(ms);
    MergeUnpaired([], Merge(ms));
  }
}
