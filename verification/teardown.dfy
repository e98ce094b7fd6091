/**
 * The `destroy` method the bridge puts on the stream it hands back, which
 * is `funzip`'s stdout. The compressed-data source is piped into `funzip`'s
 * stdin, not into that stream. The first call unpipes the source from the
 * output stream and destroys the source; a `destroyed` flag turns every
 * later call into a no-op.
 */
module Teardown {

  /** The two ends of the `funzip` process a stream can be piped to. */
  datatype Target = Stdin | Stdout

  /** What `destroy` does to the source stream, in order. */
  datatype Effect = UnpipeFromOutput | DestroySource

  /**
   * The output stream's `destroyed` flag, whether the source is still piped
   * into `funzip`'s stdin, and the effects performed so far.
   */
  datatype FunzipStream = FunzipStream(destroyed: bool, pipedToStdin: bool, effects: seq<Effect>)

  /** A freshly returned stream: the source piped into stdin, nothing done yet. */
  const Opened: FunzipStream := FunzipStream(false, true, [])

  /** The teardown the first call performs: unpipe from the output, then destroy the source. */
  const TEARDOWN: seq<Effect> := [UnpipeFromOutput, DestroySource]

  /** `source.unpipe(target)`: detaches the source only from the stream named. */
  function Unpipe(s: FunzipStream, target: Target): FunzipStream {
    s.(pipedToStdin := s.pipedToStdin && target != Stdin,
       effects := s.effects + [UnpipeFromOutput])
  }

  function Destroy(s: FunzipStream): FunzipStream {
    if s.destroyed then s
    else
      var unpiped := Unpipe(s, Stdout);
      unpiped.(destroyed := true, effects := unpiped.effects + [DestroySource])
  }

  /** `n` consecutive calls of `destroy`. */
  function DestroyTimes(s: FunzipStream, n: nat): FunzipStream
    decreases n
  {
    if n == 0 then s else DestroyTimes(Destroy(s), n - 1)
  }

  /** The effects performed match the flag: the teardown once if destroyed, else nothing. */
  predicate Consistent(s: FunzipStream) {
    s.effects == if s.destroyed then TEARDOWN else []
  }

  /** A second `destroy` changes nothing. */
  lemma DestroyIdempotent(s: FunzipStream)
    ensures Destroy(Destroy(s)) == Destroy(s)
  {
  }

  /** Any number of calls keeps the flag and the effects in step; one call or more sets the flag. */
  lemma {:induction false} DestroyTimesConsistent(s: FunzipStream, n: nat)
    requires Consistent(s)
    ensures Consistent(DestroyTimes(s, n))
    ensures DestroyTimes(s, n).destroyed <==> s.destroyed || n > 0
    ensures DestroyTimes(s, n).pipedToStdin == s.pipedToStdin
    decreases n
  {
    if n > 0 {
      DestroyTimesConsistent(Destroy(s), n - 1);
    }
  }

  /**
   * From a freshly opened stream, any positive number of `destroy` calls
   * unpipes the source from the output stream and destroys it exactly once,
   * in that order. The unpipe names the output stream, which the source was
   * never piped to, so the source stays piped into stdin throughout.
   */
  method DestroyRepeatedly(calls: nat) returns (s: FunzipStream)
    ensures s.destroyed <==> calls > 0
    ensures s.effects == if calls > 0 then [UnpipeFromOutput, DestroySource] else []
    ensures s.pipedToStdin
  {
    s := Opened;
    var i := 0;
    while i < calls
      invariant i <= calls
      invariant s.destroyed <==> i > 0
      invariant s.pipedToStdin
      invariant Consistent(s)
    {
      s := Destroy(s);
      i := i + 1;
    }
  }
}
