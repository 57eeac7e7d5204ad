/**
 The "issue every call, OR the status codes together, check once" pattern
 the host program uses for its two blocking buffer writes and its six kernel
 argument binds. Status codes are the 32-bit `cl_int` values of the OpenCL
 1.2 API, kept here as their bit patterns; CL_SUCCESS is 0 and every error
 code is negative (so its pattern is non-zero).
 */
module Status {

  /** A `cl_int` status code as its 32-bit two's-complement pattern. */
  type StatusCode = bv32

  /** CL_SUCCESS. */
  const Success: StatusCode := 0

  /** CL_INVALID_DEVICE (-33). */
  const InvalidDevice: StatusCode := 0xFFFF_FFDF
  /** CL_INVALID_KERNEL (-48). */
  const InvalidKernel: StatusCode := 0xFFFF_FFD0
  /** CL_INVALID_ARG_INDEX (-49). */
  const InvalidArgIndex: StatusCode := 0xFFFF_FFCF

  /** The stage of the host program a combined check guards. */
  datatype Stage = WriteBuffers | SetKernelArguments

  /** What the host program does after a combined check. */
  datatype Outcome = Proceed | Abort(stage: Stage)

  /** One `err |= code` step: the bitwise OR of the status so far and the next call's code. */
  function Or(acc: StatusCode, code: StatusCode): StatusCode
  {
    acc | code
  }

  /** Every bit set in `x` is also set in `r`. */
  predicate Covers(r: StatusCode, x: StatusCode)
  {
    x & r == x
  }

  /** One `err |= code` step yields success exactly when both operands are success. */
  lemma OrIsSuccess(acc: StatusCode, code: StatusCode)
    ensures Or(acc, code) == Success <==> acc == Success && code == Success
  {
  }

  /** One `err |= code` step keeps every bit of `code`. */
  lemma OrKeepsCode(acc: StatusCode, code: StatusCode)
    ensures Covers(Or(acc, code), code)
  {
  }

  /** A code whose bits are all in `acc` keeps them all after `acc |= code`. */
  lemma OrKeepsBits(x: StatusCode, acc: StatusCode, code: StatusCode)
    requires Covers(acc, x)
    ensures Covers(Or(acc, code), x)
  {
  }

  /** OR-ing in success changes nothing, on either side. */
  lemma OrSuccess(acc: StatusCode, code: StatusCode)
    ensures code == Success ==> Or(acc, code) == acc
    ensures acc == Success ==> Or(acc, code) == code
  {
  }

  /** The grouping of `|=` steps does not matter. */
  lemma OrAssociative(x: StatusCode, y: StatusCode, z: StatusCode)
    ensures Or(Or(x, y), z) == Or(x, Or(y, z))
  {
  }

  /** Every call in the batch returned success. */
  predicate AllSucceeded(codes: seq<StatusCode>)
  {
    forall n :: 0 <= n < |codes| ==> codes[n] == Success
  }

  /**
   The value of `err` after `err = c0; err |= c1; ...; err |= cn` over the
   codes of the calls, in call order (the first assignment is the step
   from success, since 0 | c0 == c0): success exactly when every call
   succeeded.
   */
  function CombineStatus(codes: seq<StatusCode>): (r: StatusCode)
    ensures r == Success <==> AllSucceeded(codes)
    decreases |codes|
  {
    if |codes| == 0 then Success
    else
      var last := |codes| - 1;
      var acc := CombineStatus(codes[..last]);
      OrIsSuccess(acc, codes[last]);
      assert AllSucceeded(codes) <==> AllSucceeded(codes[..last]) && codes[last] == Success by {
        if AllSucceeded(codes[..last]) && codes[last] == Success {
          forall n | 0 <= n < |codes|
            ensures codes[n] == Success
          {
            if n < last {
              assert codes[n] == codes[..last][n];
            }
          }
        }
      }
      Or(acc, codes[last])
  }

  /** Every bit of every call's code survives into the combined code. */
  lemma {:induction false} CombineKeepsBits(codes: seq<StatusCode>, n: nat)
    requires n < |codes|
    ensures Covers(CombineStatus(codes), codes[n])
    decreases |codes|
  {
    var last := |codes| - 1;
    var prefix := codes[..last];
    var acc := CombineStatus(prefix);
    assert CombineStatus(codes) == Or(acc, codes[last]);
    if n == last {
      OrKeepsCode(acc, codes[last]);
    } else {
      CombineKeepsBits(prefix, n);
      assert prefix[n] == codes[n];
      OrKeepsBits(codes[n], acc, codes[last]);
    }
  }

  /** When only call n failed, the combined code is exactly that call's code. */
  lemma {:induction false} CombineSingleFailure(codes: seq<StatusCode>, n: nat)
    requires n < |codes|
    requires forall m :: 0 <= m < |codes| && m != n ==> codes[m] == Success
    ensures CombineStatus(codes) == codes[n]
    decreases |codes|
  {
    var last := |codes| - 1;
    var prefix := codes[..last];
    OrSuccess(CombineStatus(prefix), codes[last]);
    if n == last {
      assert AllSucceeded(prefix) by {
        forall m | 0 <= m < |prefix|
          ensures prefix[m] == Success
        {
          assert prefix[m] == codes[m];
        }
      }
    } else {
      forall m | 0 <= m < |prefix| && m != n
        ensures prefix[m] == Success
      {
        assert prefix[m] == codes[m];
      }
      CombineSingleFailure(prefix, n);
    }
  }

  /** Combining a concatenation of call batches ORs the two combined codes. */
  lemma {:induction false} CombineConcat(first: seq<StatusCode>, second: seq<StatusCode>)
    ensures CombineStatus(first + second) == Or(CombineStatus(first), CombineStatus(second))
    decreases |second|
  {
    if |second| == 0 {
      assert first + second == first;
      OrSuccess(CombineStatus(first), Success);
    } else {
      var n := |second| - 1;
      var both := first + second;
      assert both[..|both| - 1] == first + second[..n];
      assert both[|both| - 1] == second[n];
      CombineConcat(first, second[..n]);
      OrAssociative(CombineStatus(first), CombineStatus(second[..n]), second[n]);
    }
  }

  /**
   The positions of the failed calls, in call order: the aggregate-of-results
   view of the same batch of calls.
   */
  function FailedCalls(codes: seq<StatusCode>): (failed: seq<nat>)
    ensures forall n: nat :: n in failed <==> n < |codes| && codes[n] != Success
    ensures forall x, y :: 0 <= x < y < |failed| ==> failed[x] < failed[y]
    decreases |codes|
  {
    if |codes| == 0 then []
    else
      var n := |codes| - 1;
      var earlier := FailedCalls(codes[..n]);
      assert forall x :: 0 <= x < |earlier| ==> earlier[x] < n by {
        forall x | 0 <= x < |earlier|
          ensures earlier[x] < n
        {
          assert earlier[x] in earlier;
        }
      }
      earlier + (if codes[n] != Success then [n] else [])
  }

  /** The single OR check and the list of failed calls agree: success exactly when no call failed. */
  lemma CombineAgreesWithFailedCalls(codes: seq<StatusCode>)
    ensures CombineStatus(codes) == Success <==> FailedCalls(codes) == []
  {
    if FailedCalls(codes) != [] {
      assert FailedCalls(codes)[0] in FailedCalls(codes);
    }
  }

  /** The one check made after a batch of calls: abort the stage when the combined code is not success. */
  function CheckOnce(stage: Stage, codes: seq<StatusCode>): (o: Outcome)
    ensures o == Proceed <==> AllSucceeded(codes)
    ensures o != Proceed ==> o == Abort(stage)
  {
    if CombineStatus(codes) != Success then Abort(stage) else Proceed
  }

  /**
   The two blocking writes of A and B to the device: both are issued, then
   the combined code is checked once.
   */
  function WriteMatrices(writeA: StatusCode, writeB: StatusCode): (o: Outcome)
    ensures o == Proceed <==> writeA == Success && writeB == Success
    ensures o != Proceed ==> o == Abort(WriteBuffers)
  {
    var codes := [writeA, writeB];
    assert codes[0] == writeA && codes[1] == writeB;
    CheckOnce(WriteBuffers, codes)
  }

  /**
   The six argument binds (buffers A, B, C, then M, N, K): all six are
   issued, then the combined code is checked once.
   */
  function BindKernelArguments(bindA: StatusCode, bindB: StatusCode, bindC: StatusCode,
                               bindM: StatusCode, bindN: StatusCode, bindK: StatusCode): (o: Outcome)
    ensures o == Proceed <==>
              bindA == Success && bindB == Success && bindC == Success &&
              bindM == Success && bindN == Success && bindK == Success
    ensures o != Proceed ==> o == Abort(SetKernelArguments)
  {
    var codes := [bindA, bindB, bindC, bindM, bindN, bindK];
    assert codes[0] == bindA && codes[1] == bindB && codes[2] == bindC;
    assert codes[3] == bindM && codes[4] == bindN && codes[5] == bindK;
    CheckOnce(SetKernelArguments, codes)
  }

  /**
   The combined code is only good for the success test: two different
   failures can OR into a third, unrelated error code (CL_INVALID_KERNEL and
   CL_INVALID_ARG_INDEX combine into CL_INVALID_DEVICE).
   */
  lemma CombinedCodeIsNotADiagnosis()
    ensures CombineStatus([InvalidKernel, InvalidArgIndex]) == InvalidDevice
  {
  }
}
