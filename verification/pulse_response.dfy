/**
  `construct_pulse_response` in minian/visualization.py: a unit-impulse
  train and the calcium trace the AR model produces from it, used to show
  how a fitted model responds to an idealised spike.
 */
module PulseResponse {
  import opened Wrappers
  import opened Convolution

  /** Impulses are placed at every multiple of this many samples. */
  const PulseStride: nat := 500

  /** The length used when the caller gives none. */
  const DefaultPulseLength: nat := 500

  /** `np.zeros(length)` with 1 written at `np.arange(0, length, 500)`. */
  function PulseTrain(L: nat): (s: seq<real>)
    ensures |s| == L
  {
    seq(L, i requires 0 <= i < L => if i % PulseStride == 0 then 1.0 else 0.0)
  }

  /**
    `construct_pulse_response(g, length)`: the pair `(s, c)` of impulse
    train and trace, or the error `convolve_G` raises on it.
   */
  function ConstructPulseResponse(g: seq<real>, L: nat): (r: Result<(seq<real>, seq<real>), Error>)
    ensures r.Success? <==> L >= 1 && (|g| < L || |g| == 1)
    ensures r.Success? ==> |r.value.0| == L && |r.value.1| == L
    ensures r.Success? ==> forall i :: 0 <= i < L ==>
      && (r.value.0[i] == 1.0 <==> i % PulseStride == 0)
      && (r.value.0[i] == 0.0 <==> i % PulseStride != 0)
  {
    var s := PulseTrain(L);
    match ConvolveG(s, g)
    case Failure(e) => Failure(e)
    case Success(t) => Success((s, t.c))
  }

  /** The response is the AR recurrence run over the impulse train. */
  lemma PulseResponseIsArTrace(g: seq<real>, L: nat)
    requires ConstructPulseResponse(g, L).Success?
    ensures ConstructPulseResponse(g, L).value.1 == ArTrace(PulseTrain(L), g)
  {
    ConvolveGIsArTrace(PulseTrain(L), g);
  }

  /** Before the second impulse the train is a single unit impulse at 0. */
  lemma PulseTrainHead(L: nat, m: nat)
    requires 1 <= m <= L && m <= PulseStride
    ensures PulseTrain(L)[..m][0] == 1.0
    ensures forall i :: 1 <= i < m ==> PulseTrain(L)[..m][i] == 0.0
  {
    var s := PulseTrain(L);
    forall i | 1 <= i < m
      ensures s[..m][i] == 0.0
    {
      assert i % PulseStride == i;
    }
  }

  /**
    For a first-order model `g = [gamma]` the response up to the second
    impulse is the geometric decay `gamma^t`; with the default length of
    500 samples that is the whole response.
   */
  lemma PulseResponseGeometric(gamma: real, L: nat)
    requires L >= 1
    ensures ConstructPulseResponse([gamma], L).Success?
    ensures forall t :: 0 <= t < L && t < PulseStride ==>
      ConstructPulseResponse([gamma], L).value.1[t] == Pow(gamma, t)
    ensures L == DefaultPulseLength ==> forall t :: 0 <= t < L ==>
      ConstructPulseResponse([gamma], L).value.1[t] == Pow(gamma, t)
  {
    var s := PulseTrain(L);
    var m := if L < PulseStride then L else PulseStride;
    PulseResponseIsArTrace([gamma], L);
    var c := ConstructPulseResponse([gamma], L).value.1;
    assert c == ArTrace(s, [gamma]);
    ArTracePrefix(s, [gamma], m);
    PulseTrainHead(L, m);
    ArTraceGeometric(s[..m], gamma);
    forall t | 0 <= t < m
      ensures c[t] == Pow(gamma, t)
    {
      assert c[t] == c[..m][t];
    }
    assert L == DefaultPulseLength ==> m == L;
  }
}
