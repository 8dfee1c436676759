/** Filter chains: data is wound through a chain of filters in bucket brigades that change places
    after every filter. */
module Filters {
  import opened Files
  import opened Devices
  import opened Streams
  import opened Brigades

  /** The flags word of a filter call. */
  datatype Feed = Normal | FlushInc | FlushClose

  /** A filter's answer.  Only the answer PSFS_PASS_ON comes with buckets. */
  datatype Reply<S> = PassOn(state: S, out: seq<seq<byte>>) | FeedMe(state: S) | Fatal(state: S)

  /** What a filter does with the buckets it is given, as a function of its own state.  It takes all of
      them. */
  type Behaviour<!S> = (S, seq<seq<byte>>, Feed) -> Reply<S>

  class Filter<S> {
    const act: Behaviour<S>
    var state: S

    constructor (act: Behaviour<S>, state: S)
      ensures this.act == act && this.state == state
    {
      this.act, this.state := act, state;
    }
  }

  /** Empties `brigade`, handing back what its buckets held. */
  method Drain(brigade: Brigade) returns (chunks: seq<seq<byte>>)
    requires brigade.Valid()
    modifies brigade, brigade.buckets
    ensures brigade.Valid() && brigade.buckets == []
    ensures chunks == old(Contents(brigade.buckets))
  {
    chunks := [];
    while brigade.head != null
      invariant brigade.Valid()
      invariant forall i | 0 <= i < |brigade.buckets| :: brigade.buckets[i] in old(brigade.buckets)
      invariant chunks + Contents(brigade.buckets) == old(Contents(brigade.buckets))
      decreases |brigade.buckets|
    {
      var bucket := brigade.head;
      ghost var before := Contents(brigade.buckets);
      assert bucket == brigade.buckets[0] && bucket.prev == null;
      assert bucket.next != null ==> bucket.next == brigade.buckets[1];
      Unlink(bucket, 0);
      chunks := chunks + [bucket.buf];
      assert before == [bucket.buf] + Contents(brigade.buckets);
    }
    assert Contents(brigade.buckets) == [];
  }

  /** Appends one new bucket per chunk. */
  method AppendAll(brigade: Brigade, chunks: seq<seq<byte>>)
    requires brigade.Valid()
    modifies brigade, brigade.buckets
    ensures brigade.Valid()
    ensures forall i | 0 <= i < |brigade.buckets| :: fresh(brigade.buckets[i]) || brigade.buckets[i] in old(brigade.buckets)
    ensures Contents(brigade.buckets) == old(Contents(brigade.buckets)) + chunks
  {
    for i := 0 to |chunks|
      invariant brigade.Valid()
      invariant forall i | 0 <= i < |brigade.buckets| :: fresh(brigade.buckets[i]) || brigade.buckets[i] in old(brigade.buckets)
      invariant Contents(brigade.buckets) == old(Contents(brigade.buckets)) + chunks[..i]
    {
      var bucket := new Bucket(chunks[i], true);
      ghost var before := Contents(brigade.buckets);
      brigade.Append(bucket);
      assert Contents(brigade.buckets) == before + [chunks[i]];
      assert chunks[..i + 1] == chunks[..i] + [chunks[i]];
    }
    assert chunks[..|chunks|] == chunks;
  }

  datatype Status = PassedOn | Starved | Failed

  /** How a chain answers: the filters' new states, and the buckets that leave the last filter. */
  datatype Wound<S> = Wound(states: seq<S>, status: Status, out: seq<seq<byte>>)

  /** One pass through a chain, as function composition: each filter gets what the one before it
      passed on, up to the first that passes nothing on. */
  function WindSpec<S>(acts: seq<Behaviour<S>>, states: seq<S>, input: seq<seq<byte>>, feed: Feed): (w: Wound<S>)
    requires |acts| == |states|
    ensures |w.states| == |acts| && (w.status != PassedOn ==> w.out == [])
  {
    if acts == [] then Wound([], PassedOn, input)
    else
      match acts[0](states[0], input, feed)
      case PassOn(state, out) =>
        var rest := WindSpec(acts[1..], states[1..], out, feed);
        Wound([state] + rest.states, rest.status, rest.out)
      case FeedMe(state) => Wound([state] + states[1..], Starved, [])
      case Fatal(state) => Wound([state] + states[1..], Failed, [])
  }

  /** A chain of one filter answers as the filter does. */
  lemma WindOfOne<S>(act: Behaviour<S>, state: S, input: seq<seq<byte>>, feed: Feed)
    ensures WindSpec([act], [state], input, feed) ==
            match act(state, input, feed)
            case PassOn(after, out) => Wound([after], PassedOn, out)
            case FeedMe(after) => Wound([after], Starved, [])
            case Fatal(after) => Wound([after], Failed, [])
  {
    assert [act][1..] == [] && [state][1..] == [];
  }

  /** A chain is the composition of any two parts it is cut into. */
  lemma {:induction false} WindCompose<S>(f: seq<Behaviour<S>>, fs: seq<S>, g: seq<Behaviour<S>>, gs: seq<S>,
                                          input: seq<seq<byte>>, feed: Feed)
    requires |f| == |fs| && |g| == |gs|
    ensures var first := WindSpec(f, fs, input, feed);
            WindSpec(f + g, fs + gs, input, feed) ==
            if first.status == PassedOn then
              var second := WindSpec(g, gs, first.out, feed);
              Wound(first.states + second.states, second.status, second.out)
            else Wound(first.states + gs, first.status, [])
  {
    if f == [] {
      assert f + g == g && fs + gs == gs;
      assert [] + WindSpec(g, gs, input, feed).states == WindSpec(g, gs, input, feed).states;
    } else {
      assert (f + g)[1..] == f[1..] + g && (fs + gs)[1..] == fs[1..] + gs;
      var reply := f[0](fs[0], input, feed);
      var state := reply.state;
      assert forall a: seq<S>, b: seq<S> :: [state] + (a + b) == ([state] + a) + b;
      if reply.PassOn? {
        WindCompose(f[1..], fs[1..], g, gs, reply.out, feed);
      }
    }
  }

  function Prefixed<S>(done: seq<S>, w: Wound<S>): Wound<S> {
    Wound(done + w.states, w.status, w.out)
  }

  /** The first `k` filters have moved to `done` and passed on `current`: what is still to be computed
      is the answer of the rest. */
  ghost predicate Midway<S>(acts: seq<Behaviour<S>>, states: seq<S>, feed: Feed, total: Wound<S>,
                            done: seq<S>, current: seq<seq<byte>>)
    requires |acts| == |states|
  {
    && |done| <= |acts|
    && total == Prefixed(done, WindSpec(acts[|done|..], states[|done|..], current, feed))
  }

  lemma MidwayStep<S>(acts: seq<Behaviour<S>>, states: seq<S>, feed: Feed, total: Wound<S>,
                      done: seq<S>, current: seq<seq<byte>>)
    requires |acts| == |states| && |done| < |acts| && Midway(acts, states, feed, total, done, current)
    ensures var k := |done|;
            match acts[k](states[k], current, feed)
            case PassOn(state, out) => Midway(acts, states, feed, total, done + [state], out)
            case FeedMe(state) => total == Wound(done + [state] + states[k + 1..], Starved, [])
            case Fatal(state) => total == Wound(done + [state] + states[k + 1..], Failed, [])
  {
    var k := |done|;
    assert acts[k..][1..] == acts[k + 1..] && states[k..][1..] == states[k + 1..];
    var reply := acts[k](states[k], current, feed);
    var state := reply.state;
    assert forall rest: seq<S> :: done + ([state] + rest) == done + [state] + rest;
  }

  lemma MidwayStart<S>(acts: seq<Behaviour<S>>, states: seq<S>, feed: Feed, input: seq<seq<byte>>)
    requires |acts| == |states|
    ensures Midway(acts, states, feed, WindSpec(acts, states, input, feed), [], input)
  {
    assert acts[0..] == acts && states[0..] == states;
    var w := WindSpec(acts, states, input, feed);
    assert [] + w.states == w.states;
  }

  lemma MidwayEnd<S>(acts: seq<Behaviour<S>>, states: seq<S>, feed: Feed, total: Wound<S>,
                     done: seq<S>, current: seq<seq<byte>>)
    requires |acts| == |states| == |done| && Midway(acts, states, feed, total, done, current)
    ensures total == Wound(done, PassedOn, current)
  {
    assert done + [] == done;
  }

  ghost predicate Distinct<S>(chain: seq<Filter<S>>) {
    forall i, j | 0 <= i < j < |chain| :: chain[i] != chain[j]
  }

  function Acts<S>(chain: seq<Filter<S>>): (r: seq<Behaviour<S>>)
    ensures |r| == |chain|
  {
    seq(|chain|, i requires 0 <= i < |chain| => chain[i].act)
  }

  ghost function States<S>(chain: seq<Filter<S>>): (r: seq<S>)
    reads chain
    ensures |r| == |chain|
  {
    seq(|chain|, i requires 0 <= i < |chain| reads chain => chain[i].state)
  }

  /** One filter call: the filter takes every bucket of `inp` and links its answer into `outp`. */
  method Apply<S>(f: Filter<S>, inp: Brigade, outp: Brigade, feed: Feed) returns (status: Status)
    requires inp.Valid() && outp.Valid() && inp != outp && outp.buckets == []
    modifies f`state, inp, inp.buckets, outp
    ensures inp.Valid() && inp.buckets == [] && outp.Valid()
    ensures forall i | 0 <= i < |outp.buckets| :: fresh(outp.buckets[i])
    ensures match f.act(old(f.state), old(Contents(inp.buckets)), feed)
            case PassOn(state, out) => status == PassedOn && f.state == state && Contents(outp.buckets) == out
            case FeedMe(state) => status == Starved && f.state == state && outp.buckets == []
            case Fatal(state) => status == Failed && f.state == state && outp.buckets == []
  {
    var input := Drain(inp);
    var reply := f.act(f.state, input, feed);
    f.state := reply.state;
    match reply
    case PassOn(_, out) =>
      AppendAll(outp, out);
      assert Contents(outp.buckets) == out;
      status := PassedOn;
    case FeedMe(_) =>
      status := Starved;
    case Fatal(_) =>
      status := Failed;
  }

  /** memset of a brigade that a filter has emptied. */
  method Reset(brigade: Brigade)
    requires brigade.Valid() && brigade.buckets == []
    modifies brigade
    ensures brigade.Valid() && brigade.buckets == []
  {
    brigade.head, brigade.tail := null, null;
  }

  /** The winding loop: after each filter the two brigades change places. */
  method Wind<S>(chain: seq<Filter<S>>, brigIn: Brigade, brigOut: Brigade, feed: Feed)
    returns (status: Status, inp: Brigade, outp: Brigade)
    requires chain != [] && Distinct(chain)
    requires brigIn.Valid() && brigOut.Valid() && brigIn != brigOut && brigOut.buckets == []
    modifies chain, brigIn, brigIn.buckets, brigOut
    ensures inp.Valid() && outp.Valid() && outp.buckets == []
    ensures (inp == brigIn && outp == brigOut) || (inp == brigOut && outp == brigIn)
    ensures forall i | 0 <= i < |inp.buckets| :: fresh(inp.buckets[i]) || inp.buckets[i] in old(brigIn.buckets)
    ensures Wound(States(chain), status, Contents(inp.buckets)) ==
            WindSpec(Acts(chain), old(States(chain)), old(Contents(brigIn.buckets)), feed)
  {
    hide WindSpec, Brigade.Valid, Midway;
    inp, outp, status := brigIn, brigOut, PassedOn;
    ghost var acts, states, input := Acts(chain), States(chain), Contents(brigIn.buckets);
    ghost var total, done := WindSpec(acts, states, input, feed), [];
    MidwayStart(acts, states, feed, input);
    var k := 0;
    while k < |chain| && status == PassedOn
      invariant k == |done| <= |chain| && (status != PassedOn ==> 0 < k)
      invariant inp.Valid() && outp.Valid() && outp.buckets == []
      invariant (inp == brigIn && outp == brigOut) || (inp == brigOut && outp == brigIn)
      invariant forall i | 0 <= i < |inp.buckets| :: fresh(inp.buckets[i]) || inp.buckets[i] in old(brigIn.buckets)
      invariant forall i | 0 <= i < k :: chain[i].state == done[i]
      invariant forall i | k <= i < |chain| :: chain[i].state == states[i]
      invariant status == PassedOn ==> Midway(acts, states, feed, total, done, Contents(inp.buckets))
      invariant status != PassedOn ==> inp.buckets == [] && total == Wound(done + states[k..], status, [])
      decreases |chain| - k
    {
      MidwayStep(acts, states, feed, total, done, Contents(inp.buckets));
      status := Apply(chain[k], inp, outp, feed);
      done := done + [chain[k].state];
      if status == PassedOn {
        inp, outp := outp, inp;
        Reset(outp);
      }
      k := k + 1;
    }
    assert States(chain) == done + states[k..];
    if status == PassedOn {
      MidwayEnd(acts, states, feed, total, done, Contents(inp.buckets));
      assert done + states[k..] == done;
    }
  }

  /** One pass of the fill loop: what was linked into the first brigade, and under which flag. */
  datatype Round = Round(input: seq<seq<byte>>, feed: Feed)

  /** The filters' states and the bytes that have left the chain after `rounds`, pass by pass. */
  function Produced<S>(acts: seq<Behaviour<S>>, states: seq<S>, rounds: seq<Round>): (r: (seq<S>, seq<byte>))
    requires |acts| == |states|
    ensures |r.0| == |acts|
  {
    if rounds == [] then (states, [])
    else
      var last := rounds[|rounds| - 1];
      var before := Produced(acts, states, rounds[..|rounds| - 1]);
      var w := WindSpec(acts, before.0, last.input, last.feed);
      (w.states, before.1 + Flatten(w.out))
  }

  /** All bytes that entered the chain. */
  function Entered(rounds: seq<Round>): seq<byte> {
    if rounds == [] then []
    else Entered(rounds[..|rounds| - 1]) + Flatten(rounds[|rounds| - 1].input)
  }

  lemma ProducedSnoc<S>(acts: seq<Behaviour<S>>, states: seq<S>, rounds: seq<Round>, r: Round)
    requires |acts| == |states|
    ensures var before := Produced(acts, states, rounds);
            var w := WindSpec(acts, before.0, r.input, r.feed);
            Produced(acts, states, rounds + [r]) == (w.states, before.1 + Flatten(w.out))
    ensures Entered(rounds + [r]) == Entered(rounds) + Flatten(r.input)
  {
    assert (rounds + [r])[..|rounds|] == rounds;
  }

  /** Passes behind passes go on from where those left the filters. */
  lemma {:induction false} ProducedConcat<S>(acts: seq<Behaviour<S>>, states: seq<S>, before: seq<Round>, rounds: seq<Round>)
    requires |acts| == |states|
    ensures var first := Produced(acts, states, before);
            var second := Produced(acts, first.0, rounds);
            Produced(acts, states, before + rounds) == (second.0, first.1 + second.1)
    ensures Entered(before + rounds) == Entered(before) + Entered(rounds)
  {
    hide WindSpec, Flatten;
    if rounds == [] {
      assert before + rounds == before;
      assert Produced(acts, states, before).1 + [] == Produced(acts, states, before).1 && Entered(before) + [] == Entered(before);
    } else {
      hide Produced, Entered;
      var k, first := |rounds| - 1, Produced(acts, states, before);
      ProducedConcat(acts, states, before, rounds[..k]);
      CutLast(before, rounds);
      ProducedSnoc(acts, states, before + rounds[..k], rounds[k]);
      ProducedSnoc(acts, first.0, rounds[..k], rounds[k]);
      var second := Produced(acts, first.0, rounds[..k]);
      ConcatAssociates(first.1, second.1, Flatten(WindSpec(acts, second.0, rounds[k].input, rounds[k].feed).out));
      ConcatAssociates(Entered(before), Entered(rounds[..k]), Flatten(rounds[k].input));
    }
  }

  lemma CutLast<T>(s: seq<T>, t: seq<T>)
    requires t != []
    ensures s + t == s + t[..|t| - 1] + [t[|t| - 1]] && t == t[..|t| - 1] + [t[|t| - 1]]
  {
  }

  /** The passes that a first part of a chain causes in the part behind it. */
  function Passed<S>(acts: seq<Behaviour<S>>, states: seq<S>, rounds: seq<Round>): seq<Round>
    requires |acts| == |states|
  {
    if rounds == [] then []
    else
      var last := rounds[|rounds| - 1];
      var w := WindSpec(acts, Produced(acts, states, rounds[..|rounds| - 1]).0, last.input, last.feed);
      Passed(acts, states, rounds[..|rounds| - 1]) + (if w.status == PassedOn then [Round(w.out, last.feed)] else [])
  }

  /** Over any number of passes, a chain produces what its second part produces when fed by its
      first. */
  lemma {:induction false} ProducedCompose<S>(f: seq<Behaviour<S>>, fs: seq<S>, g: seq<Behaviour<S>>, gs: seq<S>,
                                              rounds: seq<Round>)
    requires |f| == |fs| && |g| == |gs|
    ensures var behind := Produced(g, gs, Passed(f, fs, rounds));
            Produced(f + g, fs + gs, rounds) == (Produced(f, fs, rounds).0 + behind.0, behind.1)
  {
    if rounds != [] {
      var before, last := rounds[..|rounds| - 1], rounds[|rounds| - 1];
      ProducedCompose(f, fs, g, gs, before);
      var states := Produced(f, fs, before).0;
      var behind := Produced(g, gs, Passed(f, fs, before));
      WindCompose(f, states, g, behind.0, last.input, last.feed);
      var first := WindSpec(f, states, last.input, last.feed);
      if first.status == PassedOn {
        ProducedSnoc(g, gs, Passed(f, fs, before), Round(first.out, last.feed));
      } else {
        assert behind.1 + Flatten([]) == behind.1;
        assert Passed(f, fs, before) + [] == Passed(f, fs, before);
      }
    }
  }

  /** Applies `h` to every byte. */
  function MapBytes(h: byte -> byte, s: seq<byte>): (r: seq<byte>)
    ensures |r| == |s|
  {
    seq(|s|, i requires 0 <= i < |s| => h(s[i]))
  }

  function MapThrough(hs: seq<byte -> byte>, s: seq<byte>): (r: seq<byte>)
    ensures |r| == |s|
  {
    if hs == [] then s else MapThrough(hs[1..], MapBytes(hs[0], s))
  }

  /** The filter always passes on, byte for byte, the image of what it got under `h`; how it cuts its
      buckets is its own affair. */
  ghost predicate MapsBytes<S(!new)>(act: Behaviour<S>, h: byte -> byte) {
    forall state, input, feed ::
      act(state, input, feed).PassOn? && Flatten(act(state, input, feed).out) == MapBytes(h, Flatten(input))
  }

  lemma {:induction false} WindOfMaps<S(!new)>(acts: seq<Behaviour<S>>, hs: seq<byte -> byte>, states: seq<S>,
                                         input: seq<seq<byte>>, feed: Feed)
    requires |acts| == |states| == |hs|
    requires forall i | 0 <= i < |acts| :: MapsBytes(acts[i], hs[i])
    ensures var w := WindSpec(acts, states, input, feed);
            w.status == PassedOn && Flatten(w.out) == MapThrough(hs, Flatten(input))
  {
    if acts != [] {
      var reply := acts[0](states[0], input, feed);
      assert MapsBytes(acts[0], hs[0]);
      forall i | 0 <= i < |acts[1..]|
        ensures MapsBytes(acts[1..][i], hs[1..][i])
      {
        assert MapsBytes(acts[i + 1], hs[i + 1]);
      }
      WindOfMaps(acts[1..], hs[1..], states[1..], reply.out, feed);
    }
  }

  lemma {:induction false} MapThroughConcat(hs: seq<byte -> byte>, s: seq<byte>, t: seq<byte>)
    ensures MapThrough(hs, s + t) == MapThrough(hs, s) + MapThrough(hs, t)
  {
    if hs != [] {
      assert MapBytes(hs[0], s + t) == MapBytes(hs[0], s) + MapBytes(hs[0], t);
      MapThroughConcat(hs[1..], MapBytes(hs[0], s), MapBytes(hs[0], t));
    }
  }

  /** A chain of byte maps produces exactly the image of every byte that entered, in order, whatever
      the cuts into chunks and passes. */
  lemma {:induction false} ProducedOfMaps<S(!new)>(acts: seq<Behaviour<S>>, hs: seq<byte -> byte>, states: seq<S>,
                                             rounds: seq<Round>)
    requires |acts| == |states| == |hs|
    requires forall i | 0 <= i < |acts| :: MapsBytes(acts[i], hs[i])
    ensures Produced(acts, states, rounds).1 == MapThrough(hs, Entered(rounds))
  {
    if rounds == [] {
      assert |MapThrough(hs, [])| == 0;
    } else {
      var before, last := rounds[..|rounds| - 1], rounds[|rounds| - 1];
      ProducedOfMaps(acts, hs, states, before);
      WindOfMaps(acts, hs, Produced(acts, states, before).0, last.input, last.feed);
      MapThroughConcat(hs, Entered(before), Flatten(last.input));
    }
  }
}
