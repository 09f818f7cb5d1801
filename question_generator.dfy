/**
  The question generators of `src/question_generator.py`: one asks a local
  T5 model for one question per answer, the other sends the fragments of a
  text to a chat model in batches and collects one reply per batch.

  The language models are not modelled: each is a function of the prompt it
  is given.
 */
module QuestionGenerator {
  import opened Seqs
  import opened PyStr

  datatype Option<T> = None | Some(value: T)

  datatype Result<T, E> = Ok(value: T) | Failure(error: E)

  /** The instruction put in front of every answer given to the T5 model. */
  const Instruction: string := "Generate a generic question that can be answered using the following text:\n\n"

  /** The template put in front of every batch sent to the chat model. */
  const Template: string := "Generate one and only one short question per line based on the lines of the following text:\n"

  /** What joins the fragments of one batch. */
  const BatchSeparator: string := "\n\n"

  class QuestionGeneratorTransformers {
    /** Tokenising, `generate` and decoding of the first output, as one function. */
    const model: string -> string
    const instruction: string := Instruction

    constructor (model: string -> string)
      ensures this.model == model
    {
      this.model := model;
    }

    /** The model's answer to the instruction followed by the prompt. */
    method GenerateQuestion(prompt: string) returns (question: string)
      ensures question == model(Instruction + prompt)
    {
      var inputText := instruction + prompt;
      question := model(inputText);
    }

    /** One question per answer, in the order of the answers. */
    method GenerateQuestions(answers: seq<string>) returns (questions: seq<string>)
      ensures |questions| == |answers|
      ensures forall i :: 0 <= i < |answers| ==> questions[i] == model(Instruction + answers[i])
    {
      questions := [];
      for i := 0 to |answers|
        invariant |questions| == i
        invariant forall k :: 0 <= k < i ==> questions[k] == model(Instruction + answers[k])
      {
        var question := GenerateQuestion(answers[i]);
        questions := questions + [question];
      }
    }
  }

  // ---------------------------------------------------------------------------
  // Batching

  /** Why `query_in_batches` raises before sending anything. */
  datatype BatchError =
    | ZeroDivisionError  // `num_batches` is 0
    | ZeroStepError      // the batch size is 0, and `range` refuses a zero step

  /** `int(a / b)`: the quotient rounded toward zero. */
  function TruncDiv(a: nat, b: int): (q: int)
    requires b != 0
    ensures b > 0 ==> 0 <= q && q * b <= a < q * b + b
    ensures b < 0 ==> q <= 0 && -q * -b <= a < -q * -b - b
    ensures q == 0 <==> a < b || a < -b
  {
    if b > 0 then NatDiv(a, b); a / b else NatDiv(a, -b); -(a / -b)
  }

  /**
    The slices `fragments[i:min(i + size, len(fragments))]` for
    `i in range(0, len(fragments), size)`.
   */
  function Batches(fragments: seq<string>, size: nat): seq<seq<string>>
    requires size > 0
  {
    if fragments == [] then []
    else if |fragments| <= size then [fragments]
    else [fragments[..size]] + Batches(fragments[size..], size)
  }

  class QuestionGeneratorOpenAI {
    /**
      The chat completion for a user message (the fixed system message and the
      model name included): the `content` of the first choice, which may be None.
     */
    const chat: string -> Option<string>
    const template: string := Template

    constructor (chat: string -> Option<string>)
      ensures this.chat == chat
    {
      this.chat := chat;
    }

    /** The reply to the template followed by the prompt. */
    method Completion(prompt: string) returns (content: Option<string>)
      ensures content == chat(Template + prompt)
    {
      content := chat(template + prompt);
    }

    /**
      Sends the fragments in consecutive batches of `int(len / num_batches)`
      fragments (the last one possibly shorter) and returns the replies in
      batch order; a negative batch size sends nothing.
     */
    method QueryInBatches(fragmentedText: seq<string>, numBatches: int := 1)
      returns (r: Result<seq<Option<string>>, BatchError>)
      ensures numBatches == 0 <==> r == Failure(ZeroDivisionError)
      ensures r == Failure(ZeroStepError) <==>
                (numBatches > 0 && |fragmentedText| < numBatches) ||
                (numBatches < 0 && |fragmentedText| < -numBatches)
      ensures numBatches < 0 && |fragmentedText| >= -numBatches ==> r == Ok([])
      ensures numBatches > 0 && |fragmentedText| >= numBatches ==>
                var batches := Batches(fragmentedText, |fragmentedText| / numBatches);
                && r.Ok?
                && |r.value| == |batches|
                && forall k :: 0 <= k < |batches| ==>
                     r.value[k] == chat(Template + Join(BatchSeparator, batches[k]))
    {
      if numBatches == 0 {
        return Failure(ZeroDivisionError);
      }
      var totalFragments := |fragmentedText|;
      var batchSize := TruncDiv(totalFragments, numBatches);
      if batchSize == 0 {
        return Failure(ZeroStepError);
      }
      var responses: seq<Option<string>> := [];
      if batchSize > 0 {
        ghost var batches := Batches(fragmentedText, batchSize);
        ghost var sent: seq<seq<string>> := [];
        var i := 0;
        while i < totalFragments
          invariant 0 <= i
          invariant i < totalFragments ==> batches == sent + Batches(fragmentedText[i..], batchSize)
          invariant i >= totalFragments ==> batches == sent
          invariant |responses| == |sent|
          invariant forall k :: 0 <= k < |sent| ==>
                      responses[k] == chat(Template + Join(BatchSeparator, sent[k]))
          decreases totalFragments - i
        {
          var posFinal := if i + batchSize < totalFragments then i + batchSize else totalFragments;
          var prompt := Join(BatchSeparator, fragmentedText[i..posFinal]);
          var questions := Completion(prompt);
          BatchesStep(fragmentedText, batchSize, i);
          ghost var batch := fragmentedText[i..posFinal];
          ghost var later := if i + batchSize < totalFragments then Batches(fragmentedText[i + batchSize..], batchSize) else [];
          assert batches == (sent + [batch]) + later;
          responses := responses + [questions];
          sent := sent + [batch];
          i := i + batchSize;
        }
      }
      r := Ok(responses);
    }
  }

  /** One turn of the batching loop: the batch at `i` and the batches after it. */
  lemma {:induction false} BatchesStep(fragments: seq<string>, size: nat, i: nat)
    requires size > 0 && i < |fragments|
    ensures var posFinal := if i + size < |fragments| then i + size else |fragments|;
      && Batches(fragments[i..], size)
         == [fragments[i..posFinal]] + (if i + size < |fragments| then Batches(fragments[i + size..], size) else [])
  {
    var rest := fragments[i..];
    if i + size < |fragments| {
      assert rest[..size] == fragments[i..i + size];
      assert rest[size..] == fragments[i + size..];
    } else {
      assert rest == fragments[i..|fragments|];
    }
  }

  // ---------------------------------------------------------------------------
  // What the batches are

  /** The batches, concatenated in order, are the fragments: nothing lost, repeated or reordered. */
  lemma {:induction false} BatchesFlatten(fragments: seq<string>, size: nat)
    requires size > 0
    ensures Flatten(Batches(fragments, size)) == fragments
  {
    if fragments != [] && |fragments| > size {
      BatchesFlatten(fragments[size..], size);
      assert fragments == fragments[..size] + fragments[size..];
    }
  }

  /** Every batch is non-empty; all but the last hold exactly `size` fragments, the last at most `size`. */
  lemma {:induction false} BatchesShape(fragments: seq<string>, size: nat)
    requires size > 0
    ensures forall k :: 0 <= k < |Batches(fragments, size)| ==> 0 < |Batches(fragments, size)[k]| <= size
    ensures forall k :: 0 <= k < |Batches(fragments, size)| - 1 ==> |Batches(fragments, size)[k]| == size
  {
    if fragments != [] && |fragments| > size {
      BatchesShape(fragments[size..], size);
      var bs := Batches(fragments, size);
      var rest := Batches(fragments[size..], size);
      assert bs == [fragments[..size]] + rest;
      forall k | 1 <= k < |bs|
        ensures 0 < |bs[k]| <= size && (k < |bs| - 1 ==> |bs[k]| == size)
      {
        assert bs[k] == rest[k - 1];
      }
    }
  }

  /** There are ceil(n / size) batches of n fragments, as many as `range(0, n, size)` has values. */
  lemma {:induction false} BatchCount(fragments: seq<string>, size: nat)
    requires size > 0
    ensures |Batches(fragments, size)| == (|fragments| + size - 1) / size
  {
    var n := |fragments|;
    if fragments == [] {
      DivBetween(size - 1, size, 0);
    } else if n <= size {
      DivBetween(n + size - 1, size, 1);
    } else {
      var m := n - size;
      BatchCount(fragments[size..], size);
      var q := (m + size - 1) / size;
      NatDiv(m + size - 1, size);
      DivBetween(n + size - 1, size, q + 1);
    }
  }

  /**
    Taking `m` full batches off the front: when there are at least `m * size`
    fragments, the first `m` batches are followed by the batches of the rest.
   */
  lemma {:induction false} BatchesDrop(fragments: seq<string>, size: nat, m: nat)
    requires size > 0 && m * size <= |fragments|
    ensures |Batches(fragments, size)| == m + |Batches(fragments[m * size..], size)|
  {
    if m > 0 {
      MulPred(m, size);
      var rest := fragments[size..];
      BatchesDrop(rest, size, m - 1);
      assert rest[(m - 1) * size..] == fragments[m * size..];
    }
  }

  /** Each batch holds at least one fragment, so there are no more batches than fragments. */
  lemma {:induction false} BatchesAtMost(fragments: seq<string>, size: nat)
    requires size > 0
    ensures |Batches(fragments, size)| <= |fragments|
    ensures fragments != [] ==> |Batches(fragments, size)| >= 1
  {
    if |fragments| > size {
      BatchesAtMost(fragments[size..], size);
    }
  }

  /**
    With `k` batches asked for and at least `k` fragments, between `k` and
    `2k - 1` requests are made, and exactly `k` when `k` divides the number of
    fragments: the remainder of the division is sent in extra batches.
   */
  lemma {:induction false} BatchCountBounds(fragments: seq<string>, k: nat)
    requires 0 < k <= |fragments|
    ensures var count := |Batches(fragments, |fragments| / k)|;
      && k <= count <= 2 * k - 1
      && (count == k <==> |fragments| % k == 0)
  {
    var n := |fragments|;
    var size := n / k;
    NatDiv(n, k);
    assert k * size + n % k == n;
    BatchesDrop(fragments, size, k);
    var rest := fragments[k * size..];
    assert |rest| == n % k;
    BatchesAtMost(rest, size);
  }

  /** Ten fragments asked for in three batches go out as four requests of 3, 3, 3 and 1 fragments. */
  lemma {:induction false} TenFragmentsInThreeBatches(fragments: seq<string>)
    requires |fragments| == 10
    ensures TruncDiv(|fragments|, 3) == 3
    ensures |Batches(fragments, 3)| == 4
    ensures Batches(fragments, 3)[3] == fragments[9..]
  {
    var b := Batches(fragments, 3);
    assert b == [fragments[..3]] + Batches(fragments[3..], 3);
    assert Batches(fragments[3..], 3) == [fragments[3..][..3]] + Batches(fragments[3..][3..], 3);
    assert fragments[3..][3..] == fragments[6..];
    assert Batches(fragments[6..], 3) == [fragments[6..][..3]] + Batches(fragments[6..][3..], 3);
    assert fragments[6..][3..] == fragments[9..];
  }

  // ---------------------------------------------------------------------------
  // Arithmetic

  lemma {:induction false} NatDiv(a: nat, b: nat)
    requires b > 0
    ensures (a / b) * b <= a < (a / b) * b + b
    ensures a / b == 0 <==> a < b
  {
    assert a == (a / b) * b + a % b;
    if a / b > 0 {
      assert (a / b) * b >= b;
    }
  }

  lemma {:induction false} MulMono(x: nat, y: nat, b: nat)
    requires x <= y
    ensures x * b <= y * b
  {
  }

  lemma {:induction false} MulPred(m: nat, b: nat)
    requires m > 0
    ensures b <= m * b && (m - 1) * b == m * b - b
  {
  }

  lemma {:induction false} DivBetween(a: nat, b: nat, q: nat)
    requires b > 0 && q * b <= a < q * b + b
    ensures a / b == q
  {
    NatDiv(a, b);
    var d := a / b;
    if d > q {
      MulMono(q + 1, d, b);
    } else if d < q {
      MulMono(d + 1, q, b);
    }
  }
}
