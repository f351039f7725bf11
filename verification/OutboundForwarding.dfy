/** The outbound gate: what the child writes is passed on as it is, up to the first value its observer throws on. */
module OutboundForwarding {
  import opened Wrappers
  import opened JsText
  import opened JsonText
  import opened JsonFraming
  import opened FramingGrammar
  import opened StreamGates
  import ChildFraming

  // ---- what the gate does with the pieces of its input ---------------------------------

  /** Whether `onJson` returns for a value, given the values it returned for before; otherwise it throws. */
  type Observer = (seq<Value>, Value) -> bool

  /** `failed`: `onJson` threw, and the chain of writes is rejected. */
  datatype Passed = Passed(stdout: Text, observed: seq<Value>, failed: bool)

  function PassPiece(env: Env, accepts: Observer, s: Passed, p: Piece): Passed
  {
    if s.failed then s
    else if p.JsonPiece? && env.parse(p.raw).Some? then
      var v := env.parse(p.raw).value;
      if accepts(s.observed, v) then Passed(s.stdout + p.raw, s.observed + [v], false) else s.(failed := true)
    else s.(stdout := s.stdout + RawOf(p))
  }

  function PassAll(env: Env, accepts: Observer, ps: seq<Piece>): Passed
    decreases |ps|
  {
    if ps == [] then Passed([], [], false)
    else PassPiece(env, accepts, PassAll(env, accepts, ps[..|ps| - 1]), ps[|ps| - 1])
  }

  lemma {:induction false} PassPush(env: Env, accepts: Observer, ps: seq<Piece>, p: Piece)
    ensures PassAll(env, accepts, ps + [p]) == PassPiece(env, accepts, PassAll(env, accepts, ps), p)
  {
    assert (ps + [p])[..|ps|] == ps;
  }

  /** Nothing is passed on after a failure. */
  lemma {:induction false} FailedStays(env: Env, accepts: Observer, ps: seq<Piece>, more: seq<Piece>)
    requires PassAll(env, accepts, ps).failed
    ensures PassAll(env, accepts, ps + more) == PassAll(env, accepts, ps)
    decreases |more|
  {
    if more == [] {
      assert ps + more == ps;
    } else {
      var n := |more| - 1;
      FailedStays(env, accepts, ps, more[..n]);
      PassPush(env, accepts, ps + more[..n], more[n]);
      assert (ps + more[..n]) + [more[n]] == ps + more;
    }
  }

  lemma {:induction false} PassNoise(env: Env, accepts: Observer, ps: seq<Piece>, raw: Text)
    requires !PassAll(env, accepts, ps).failed
    ensures var s := PassAll(env, accepts, ps);
            PassAll(env, accepts, ps + NoiseUnits(raw)) == s.(stdout := s.stdout + raw)
    decreases |raw|
  {
    hide PassAll;
    var s := PassAll(env, accepts, ps);
    if raw == [] {
      assert ps + NoiseUnits(raw) == ps && s.stdout + raw == s.stdout;
    } else {
      var n := |raw| - 1;
      PassNoise(env, accepts, ps, raw[..n]);
      PassPush(env, accepts, ps + NoiseUnits(raw[..n]), NoiseUnit(raw[n]));
      assert (ps + NoiseUnits(raw[..n])) + [NoiseUnit(raw[n])] == ps + NoiseUnits(raw);
      assert (s.stdout + raw[..n]) + [raw[n]] == s.stdout + raw;
    }
  }

  // ---- the gate ------------------------------------------------------------------------

  class OutboundGate {
    const env: Env
    const accepts: Observer
    var buffer: Text
    var stdout: Text
    var observed: seq<Value>
    /** The chain of writes is rejected: later chunks are not written and the end is not reached. */
    var failed: bool
    /** Everything received so far. */
    ghost var received: Text

    function Produced(): Passed
      reads this
    {
      Passed(stdout, observed, failed)
    }

    /** However the input was chunked, the gate has passed on the pieces of all of it. */
    ghost predicate Follows()
      reads this
    {
      && Produced() == PassAll(env, accepts, Frame(Valid(env), received).pieces)
      && (!failed ==> buffer == Frame(Valid(env), received).remaining)
    }

    constructor (env: Env, accepts: Observer)
      ensures this.env == env && this.accepts == accepts
      ensures Follows() && received == [] && Produced() == Passed([], [], false)
    {
      this.env, this.accepts := env, accepts;
      buffer, stdout, observed, failed, received := [], [], [], false, [];
    }

    method Write(chunk: Text)
      requires Follows()
      modifies this
      ensures Follows() && received == old(received) + chunk
    {
      ghost var before := Frame(Valid(env), received).pieces;
      TwoChunks(Valid(env), received, chunk);
      received := received + chunk;
      if failed {
        ghost var all := Frame(Valid(env), received).pieces;
        FailedStays(env, accepts, before, all[|before|..]);
        assert before + all[|before|..] == all;
        return;
      }
      buffer := buffer + chunk;
      var fragments, remaining := ExtractJsonFragments(Valid(env), buffer);
      buffer := remaining;
      Emit(fragments, before);
    }

    /** Passes fragments on, after those with the pieces `done`, up to the first one that fails. */
    method Emit(fragments: seq<Fragment>, ghost done: seq<Piece>)
      requires !failed && Produced() == PassAll(env, accepts, done)
      modifies this`stdout, this`observed, this`failed
      ensures Produced() == PassAll(env, accepts, done + Pieces(fragments))
    {
      ghost var now := done;
      assert fragments[0..] == fragments;
      for i := 0 to |fragments|
        invariant now + Pieces(fragments[i..]) == done + Pieces(fragments)
        invariant !failed && Produced() == PassAll(env, accepts, now)
      {
        var f := fragments[i];
        assert fragments[i..][1..] == fragments[i + 1..];
        Assoc(now, PiecesOf(f), Pieces(fragments[i + 1..]));
        EmitOne(f, now);
        now := now + PiecesOf(f);
        if failed {
          FailedStays(env, accepts, now, Pieces(fragments[i + 1..]));
          return;
        }
      }
      assert now + [] == now;
    }

    method EmitOne(f: Fragment, ghost done: seq<Piece>)
      requires !failed && Produced() == PassAll(env, accepts, done)
      modifies this`stdout, this`observed, this`failed
      ensures Produced() == PassAll(env, accepts, done + PiecesOf(f))
    {
      if f.Noise? {
        PassNoise(env, accepts, done, f.raw);
        stdout := stdout + f.raw;
        return;
      }
      PassPush(env, accepts, done, PiecesOf(f)[0]);
      if f.Json? && env.parse(f.raw).Some? {
        var value := env.parse(f.raw).value;
        if !accepts(observed, value) {
          failed := true;
          return;
        }
        observed := observed + [value];
      }
      stdout := stdout + f.raw;
    }

    /** Not reached after a failure. */
    method End()
      requires Follows()
      modifies this
      ensures received == old(received) && observed == old(observed) && failed == old(failed)
      ensures stdout == Delivered(env, accepts, received)
      ensures !failed ==> buffer == []
    {
      JsonFraming.Lossless(Valid(env), received);
      PassedText(env, accepts, Frame(Valid(env), received).pieces);
      if failed {
        return;
      }
      if buffer != [] {
        stdout := stdout + buffer;
      }
      buffer := [];
    }
  }

  // ---- what is delivered ---------------------------------------------------------------

  /** All the output for an input: everything, unless `onJson` threw. */
  function Delivered(env: Env, accepts: Observer, t: Text): Text
  {
    var s := PassAll(env, accepts, Frame(Valid(env), t).pieces);
    if s.failed then s.stdout else t
  }

  /** The values among some pieces. */
  function Values(env: Env, ps: seq<Piece>): seq<Value>
    decreases |ps|
  {
    if ps == [] then []
    else
      var p := ps[|ps| - 1];
      Values(env, ps[..|ps| - 1]) + if p.JsonPiece? && env.parse(p.raw).Some? then [env.parse(p.raw).value] else []
  }

  /** Piece `k` holds a value that `onJson` throws on, after all the values before it. */
  ghost predicate Refused(env: Env, accepts: Observer, ps: seq<Piece>, k: nat)
  {
    && k < |ps| && ps[k].JsonPiece? && env.parse(ps[k].raw).Some?
    && !accepts(Values(env, ps[..k]), env.parse(ps[k].raw).value)
  }

  ghost predicate NoneRefused(env: Env, accepts: Observer, ps: seq<Piece>) {
    forall k: nat :: !Refused(env, accepts, ps, k)
  }

  lemma {:induction false} RefusedBefore(env: Env, accepts: Observer, ps: seq<Piece>, n: nat, k: nat)
    requires k < n <= |ps|
    ensures Refused(env, accepts, ps[..n], k) <==> Refused(env, accepts, ps, k)
  {
    assert ps[..n][..k] == ps[..k];
  }

  lemma {:induction false} RawTextPush(ps: seq<Piece>, p: Piece)
    ensures RawText(ps + [p]) == RawText(ps) + RawOf(p)
  {
    RawTextAppend(ps, [p]);
    assert [p][1..] == [] && RawOf(p) + [] == RawOf(p);
  }

  /** Without a refusal everything is passed on and observed; nothing fails. */
  lemma {:induction false} PassedText(env: Env, accepts: Observer, ps: seq<Piece>)
    ensures !PassAll(env, accepts, ps).failed ==>
              PassAll(env, accepts, ps) == Passed(RawText(ps), Values(env, ps), false) && NoneRefused(env, accepts, ps)
    decreases |ps|
  {
    if ps != [] {
      var n := |ps| - 1;
      PassedText(env, accepts, ps[..n]);
      RawTextPush(ps[..n], ps[n]);
      assert ps[..n] + [ps[n]] == ps;
      if !PassAll(env, accepts, ps).failed {
        forall k: nat ensures !Refused(env, accepts, ps, k) {
          if k < n {
            RefusedBefore(env, accepts, ps, n, k);
          }
        }
      }
    }
  }

  /** A failure is at the first refused piece: exactly the pieces before it were passed on and observed. */
  lemma {:induction false} FailedAt(env: Env, accepts: Observer, ps: seq<Piece>) returns (k: nat)
    requires PassAll(env, accepts, ps).failed
    ensures Refused(env, accepts, ps, k) && NoneRefused(env, accepts, ps[..k])
    ensures PassAll(env, accepts, ps) == Passed(RawText(ps[..k]), Values(env, ps[..k]), true)
    decreases |ps|
  {
    k := |ps| - 1;
    if PassAll(env, accepts, ps[..k]).failed {
      var n := k;
      k := FailedAt(env, accepts, ps[..n]);
      RefusedBefore(env, accepts, ps, n, k);
      assert ps[..n][..k] == ps[..k];
    } else {
      PassedText(env, accepts, ps[..k]);
    }
  }

  lemma {:induction false} PartOfWhole(valid: Text -> bool, t: Text, k: nat)
    requires k < |Frame(valid, t).pieces| && Frame(valid, t).pieces[k].JsonPiece?
    ensures RawText(Frame(valid, t).pieces[..k]) < t
  {
    hide Frame, RawText, IsWord;
    var framed := Frame(valid, t);
    var ps := framed.pieces;
    ChildFraming.FragmentsAreWords(valid, t);
    assert ps[k] in ps;
    ChildFraming.WordEnds(ps[k].raw, []);
    JsonFraming.Lossless(valid, t);
    RawTextPush(ps[..k], ps[k]);
    assert ps[..k] + [ps[k]] == ps[..k + 1] && ps[..k + 1] + ps[k + 1..] == ps;
    RawTextAppend(ps[..k + 1], ps[k + 1..]);
  }

  /**
   * For every input, however chunked, and every observer: the output is the whole input if and only
   * if `onJson` returns for every value in turn; otherwise it stops, short of the whole input, right
   * before the first value that `onJson` throws on.
   */
  lemma {:induction false} DeliveredIff(env: Env, accepts: Observer, t: Text)
    ensures var ps := Frame(Valid(env), t).pieces;
            && (Delivered(env, accepts, t) == t <==> NoneRefused(env, accepts, ps))
            && (Delivered(env, accepts, t) != t ==>
                  exists k: nat :: Refused(env, accepts, ps, k) && NoneRefused(env, accepts, ps[..k])
                                   && Delivered(env, accepts, t) == RawText(ps[..k]) < t)
  {
    hide Frame, RawText, Values, NoneRefused;
    var ps := Frame(Valid(env), t).pieces;
    if PassAll(env, accepts, ps).failed {
      var k := FailedAt(env, accepts, ps);
      PartOfWhole(Valid(env), t, k);
      OneRefused(env, accepts, ps, k);
    } else {
      PassedText(env, accepts, ps);
    }
  }

  lemma {:induction false} OneRefused(env: Env, accepts: Observer, ps: seq<Piece>, k: nat)
    requires Refused(env, accepts, ps, k)
    ensures !NoneRefused(env, accepts, ps)
  {
  }
}
