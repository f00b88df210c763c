/**
 * The retry loop of `generate_image` in imagen3_server.py.
 *
 * The remote image service is replaced by a script: the replies it gives to
 * the successive attempts, in order. A reply is a returned response, a
 * `BlockedPromptException`, or any other exception (which also stands for a
 * response whose bytes fail to decode). Calls to the rate limiter and the
 * five-second sleeps are counted rather than performed.
 */
module Retry {
  import opened Options

  type Bytes = seq<bv8>

  /** What one attempt (acquire, then `generate_images`) comes back with. */
  datatype Reply =
    | Response(images: seq<Option<Bytes>>)   // `generated_images`; `None` where an entry has no image or no bytes
    | BlockedPrompt                          // `BlockedPromptException`
    | Raised                                 // any other exception inside the `try`

  /**
   * The image bytes of a response, if it carries usable ones: a non-empty list
   * whose first entry has an image with non-empty bytes.
   */
  function ImageData(images: seq<Option<Bytes>>): (r: Option<Bytes>)
    ensures r.Some? ==> |images| > 0 && images[0] == Some(r.value) && r.value != []
    ensures r.None? ==> images == [] || images[0].None? || images[0].value == []
  {
    if |images| > 0 && images[0].Some? && |images[0].value| > 0 then Some(images[0].value) else None
  }

  /** A response the task returns on. */
  predicate IsSuccess(reply: Reply): (b: bool)
    ensures b <==> reply.Response? && |reply.images| > 0 && reply.images[0].Some? && reply.images[0].value != []
  {
    reply.Response? && ImageData(reply.images).Some?
  }

  /** A reply that ends the task whatever budget is left: a usable image or a blocked prompt. */
  predicate IsFinal(reply: Reply) {
    reply.BlockedPrompt? || IsSuccess(reply)
  }

  /** How a task ends. `Skipped` and `GaveUp` both return `None` in the source. */
  datatype TaskEnd =
    | Image(bytes: Bytes)   // a usable image was returned
    | Skipped               // the prompt was blocked
    | GaveUp                // the retry budget is spent
    | Unfinished            // the script ran out while the loop would still call the service

  /** What `generate_image` hands back for a task that ended. */
  function Returned(e: TaskEnd): (r: Option<Bytes>)
    requires !e.Unfinished?
    ensures r.Some? <==> e.Image?
    ensures r.Some? ==> r.value == e.bytes
  {
    if e.Image? then Some(e.bytes) else None
  }

  /** The end of a task and what it did on the way: attempts (each one an `acquire`), `retries` increments, sleeps. */
  datatype Trace = Trace(end: TaskEnd, acquires: nat, retries: nat, sleeps: nat)

  /** The default budget `max_retries=3`, which every task `main` submits runs with. */
  const DefaultMaxRetries := 3

  /**
   * The loop from a state where `retries` already holds `r`, consuming `script`;
   * the counts in the result are those made from that state on.
   */
  function Run(script: seq<Reply>, maxRetries: int, r: nat): (t: Trace)
    ensures t.acquires <= |script|
    ensures t.end.Image? ==> |t.end.bytes| > 0
    decreases |script|
  {
    if r >= maxRetries then Trace(GaveUp, 0, 0, 0)
    else if script == [] then Trace(Unfinished, 0, 0, 0)
    else match script[0]
      case BlockedPrompt => Trace(Skipped, 1, 0, 0)
      case Raised =>
        var rest := Run(script[1..], maxRetries, r + 1);
        Trace(rest.end, rest.acquires + 1, rest.retries + 1, rest.sleeps + if r + 1 < maxRetries then 1 else 0)
      case Response(images) =>
        match ImageData(images)
        case Some(bytes) => Trace(Image(bytes), 1, 0, 0)
        case None =>
          var rest := Run(script[1..], maxRetries, r);
          rest.(acquires := rest.acquires + 1)
  }

  /** A trace preceded by `a` attempts, `r` increments and `s` sleeps. */
  function After(t: Trace, a: nat, r: nat, s: nat): Trace {
    Trace(t.end, t.acquires + a, t.retries + r, t.sleeps + s)
  }

  /**
   * `generate_image(index, prompt, client, rate_limiter, max_retries)` against
   * the scripted service. The ghost outputs count `acquire` calls, `retries`
   * increments and five-second sleeps.
   */
  method GenerateImage(script: seq<Reply>, maxRetries: int)
    returns (end: TaskEnd, ghost acquires: nat, ghost increments: nat, ghost sleeps: nat)
    ensures Trace(end, acquires, increments, sleeps) == Run(script, maxRetries, 0)
    ensures end.Image? ==> |end.bytes| > 0
  {
    var retries: nat := 0;
    var i := 0;
    acquires, sleeps := 0, 0;
    while retries < maxRetries
      invariant 0 <= i <= |script| && acquires == i
      invariant Run(script, maxRetries, 0) == After(Run(script[i..], maxRetries, retries), i, retries, sleeps)
      decreases |script| - i
    {
      if i == |script| {
        return Unfinished, acquires, retries, sleeps;
      }
      assert script[i..][1..] == script[i + 1..];
      acquires := acquires + 1;   // rate_limiter.acquire()
      var reply := script[i];
      i := i + 1;
      match reply {
        case BlockedPrompt =>
          return Skipped, acquires, retries, sleeps;
        case Raised =>
          retries := retries + 1;
          if retries < maxRetries {
            sleeps := sleeps + 1;   // time.sleep(5)
          }
        case Response(images) =>
          match ImageData(images) {
            case Some(bytes) =>
              return Image(bytes), acquires, retries, sleeps;
            case None =>
          }
      }
    }
    end, increments := GaveUp, retries;
  }

  // ---------------------------------------------------------------------------
  // What the loop promises

  /** The number of raised exceptions among `replies`. */
  function CountRaised(replies: seq<Reply>): nat {
    if replies == [] then 0 else (if replies[0].Raised? then 1 else 0) + CountRaised(replies[1..])
  }

  /**
   * Only exceptions move the counter: the increments are exactly the raised
   * replies among those the task consumed.
   */
  lemma {:induction false} RetriesCountRaised(script: seq<Reply>, maxRetries: int, r: nat)
    ensures var t := Run(script, maxRetries, r);
      t.retries == CountRaised(script[..t.acquires])
    decreases |script|
  {
    var t := Run(script, maxRetries, r);
    if r < maxRetries && script != [] && !IsFinal(script[0]) {
      var r' := if script[0].Raised? then r + 1 else r;
      RetriesCountRaised(script[1..], maxRetries, r');
      assert script[..t.acquires][1..] == script[1..][..t.acquires - 1];
    }
  }

  /**
   * Every attempt but the last got a reply that lets the loop go on, and the
   * last reply consumed decides how the task ends.
   */
  lemma {:induction false} LastReplyDecides(script: seq<Reply>, maxRetries: int, r: nat)
    ensures var t := Run(script, maxRetries, r);
      && (forall k :: 0 <= k < t.acquires - 1 ==> !IsFinal(script[k]))
      && (t.end.Image? <==> t.acquires > 0 && IsSuccess(script[t.acquires - 1]))
      && (t.end.Image? ==> Some(t.end.bytes) == ImageData(script[t.acquires - 1].images))
      && (t.end.Skipped? <==> t.acquires > 0 && script[t.acquires - 1].BlockedPrompt?)
      && (t.end.GaveUp? ==> t.acquires == 0 || script[t.acquires - 1].Raised?)
      && (t.end.Unfinished? ==> t.acquires == |script|)
    decreases |script|
  {
    if r < maxRetries && script != [] && !IsFinal(script[0]) {
      var r' := if script[0].Raised? then r + 1 else r;
      LastReplyDecides(script[1..], maxRetries, r');
      var t' := Run(script[1..], maxRetries, r');
      forall k | 0 <= k < t'.acquires
        ensures script[k + 1] == script[1..][k]
      {
      }
    }
  }

  /**
   * The sleep accounting: a sleep follows every exception except one that
   * spends the budget. A task that gives up has made exactly its budget of
   * increments (none when the budget was already spent) and slept one time
   * fewer; any other task slept once per exception and stayed under budget.
   */
  lemma {:induction false} SleepAccounting(script: seq<Reply>, maxRetries: int, r: nat)
    ensures var t := Run(script, maxRetries, r);
      && (t.end.GaveUp? ==> r + t.retries == (if r < maxRetries then maxRetries else r))
      && (t.end.GaveUp? && r < maxRetries ==> t.sleeps + 1 == t.retries)
      && (t.end.GaveUp? && r >= maxRetries ==> t.sleeps == 0 && t.retries == 0 && t.acquires == 0)
      && (!t.end.GaveUp? ==> t.sleeps == t.retries && r + t.retries < maxRetries)
    decreases |script|
  {
    if r < maxRetries && script != [] && !IsFinal(script[0]) {
      var r' := if script[0].Raised? then r + 1 else r;
      SleepAccounting(script[1..], maxRetries, r');
    }
  }

  /**
   * `generate_image` as called: after giving up it has made `max(0, max_retries)`
   * increments and slept `max(0, max_retries - 1)` times, with one `acquire` per
   * attempt; otherwise it slept once per exception. With `max_retries <= 0` it
   * makes no attempt at all.
   */
  lemma GiveUpAfterBudget(script: seq<Reply>, maxRetries: int)
    ensures var t := Run(script, maxRetries, 0);
      && (t.end.GaveUp? ==> t.retries == (if maxRetries > 0 then maxRetries else 0))
      && (t.end.GaveUp? ==> t.sleeps == (if maxRetries > 0 then maxRetries - 1 else 0))
      && (t.end.GaveUp? ==> t.retries == CountRaised(script[..t.acquires]))
      && (!t.end.GaveUp? ==> t.sleeps == t.retries < maxRetries)
      && (maxRetries <= 0 ==> t == Trace(GaveUp, 0, 0, 0))
  {
    SleepAccounting(script, maxRetries, 0);
    RetriesCountRaised(script, maxRetries, 0);
  }

  /** `n` copies of `reply`. */
  function Repeat(reply: Reply, n: nat): (s: seq<Reply>)
    ensures |s| == n && forall k :: 0 <= k < n ==> s[k] == reply
  {
    if n == 0 then [] else [reply] + Repeat(reply, n - 1)
  }

  /**
   * A service that raises on every attempt: the task gives up after
   * `max_retries` attempts, `max_retries` increments and `max_retries - 1` sleeps,
   * whatever the script holds after those.
   */
  lemma {:induction false} ExceptionsExhaustBudget(maxRetries: nat, rest: seq<Reply>, r: nat)
    requires r <= maxRetries
    ensures Run(Repeat(Raised, maxRetries - r) + rest, maxRetries, r)
         == Trace(GaveUp, maxRetries - r, maxRetries - r, if r < maxRetries then maxRetries - r - 1 else 0)
    decreases maxRetries - r
  {
    if r < maxRetries {
      var s := Repeat(Raised, maxRetries - r) + rest;
      assert s[1..] == Repeat(Raised, maxRetries - (r + 1)) + rest;
      ExceptionsExhaustBudget(maxRetries, rest, r + 1);
    }
  }

  /**
   * `j` exceptions followed by a final reply, with budget to spare: the task
   * ends on attempt `j + 1` with that reply's outcome, having made `j`
   * increments and slept after each of them.
   */
  lemma {:induction false} FinalAfterExceptions(j: nat, last: Reply, rest: seq<Reply>, maxRetries: int, r: nat)
    requires IsFinal(last) && r + j < maxRetries
    ensures Run(Repeat(Raised, j) + [last] + rest, maxRetries, r)
         == Trace(if last.BlockedPrompt? then Skipped else Image(ImageData(last.images).value), j + 1, j, j)
    decreases j
  {
    var s := Repeat(Raised, j) + [last] + rest;
    if j > 0 {
      assert s[1..] == Repeat(Raised, j - 1) + [last] + rest;
      FinalAfterExceptions(j - 1, last, rest, maxRetries, r + 1);
    } else {
      assert s[0] == last;
    }
  }

  /**
   * Empty or unusable responses (no images, no image in the first entry, or
   * empty bytes) cost an attempt (and an `acquire`) each but no budget and no
   * sleep: any number of them in a row leaves the loop where it was, so the
   * number of attempts has no bound in terms of `max_retries`.
   */
  lemma {:induction false} EmptyResponsesAreFree(wasted: seq<Reply>, rest: seq<Reply>, maxRetries: int, r: nat)
    requires r < maxRetries
    requires forall k :: 0 <= k < |wasted| ==> wasted[k].Response? && !IsSuccess(wasted[k])
    ensures Run(wasted + rest, maxRetries, r) == After(Run(rest, maxRetries, r), |wasted|, 0, 0)
    decreases |wasted|
  {
    if wasted == [] {
      assert wasted + rest == rest;
    } else {
      var s := wasted + rest;
      assert s[0] == wasted[0];
      assert s[1..] == wasted[1..] + rest;
      EmptyResponsesAreFree(wasted[1..], rest, maxRetries, r);
    }
  }

  /**
   * With the default budget a task that gives up has been through three
   * exceptions and two five-second sleeps; three exceptions in a row always
   * make it give up, whatever the service would say next.
   */
  lemma DefaultBudget(script: seq<Reply>, rest: seq<Reply>)
    ensures var t := Run(script, DefaultMaxRetries, 0);
      && (t.end.GaveUp? ==> t.retries == 3 && t.sleeps == 2 && CountRaised(script[..t.acquires]) == 3)
      && (!t.end.GaveUp? ==> t.sleeps == t.retries <= 2)
    ensures Run(Repeat(Raised, 3) + rest, DefaultMaxRetries, 0) == Trace(GaveUp, 3, 3, 2)
  {
    GiveUpAfterBudget(script, DefaultMaxRetries);
    ExceptionsExhaustBudget(DefaultMaxRetries, rest, 0);
  }

  /**
   * The task succeeds at attempt `j` (0-based): the reply there carries an
   * image, none before it ends the task, and fewer exceptions than the budget
   * allows came before it.
   */
  predicate SucceedsAt(script: seq<Reply>, maxRetries: int, r: nat, j: nat) {
    && j < |script|
    && IsSuccess(script[j])
    && (forall k :: 0 <= k < j ==> !IsFinal(script[k]))
    && r + CountRaised(script[..j]) < maxRetries
  }

  /** The task returns an image exactly when some attempt succeeds in the sense of `SucceedsAt`. */
  lemma {:induction false} ImageIffSuccess(script: seq<Reply>, maxRetries: int, r: nat)
    ensures Run(script, maxRetries, r).end.Image? <==> exists j :: SucceedsAt(script, maxRetries, r, j)
    decreases |script|
  {
    if r >= maxRetries || script == [] {
      assert forall j: nat :: !SucceedsAt(script, maxRetries, r, j);
    } else if IsFinal(script[0]) {
      if IsSuccess(script[0]) {
        assert script[..0] == [];
        assert SucceedsAt(script, maxRetries, r, 0);
      } else {
        assert forall j: nat :: !SucceedsAt(script, maxRetries, r, j);
      }
    } else {
      var r' := if script[0].Raised? then r + 1 else r;
      ImageIffSuccess(script[1..], maxRetries, r');
      forall j: nat | 0 < j <= |script|
        ensures CountRaised(script[..j]) == CountRaised(script[1..][..j - 1]) + (if script[0].Raised? then 1 else 0)
      {
        assert script[..j][1..] == script[1..][..j - 1];
      }
      if exists j :: SucceedsAt(script, maxRetries, r, j) {
        var j: nat :| SucceedsAt(script, maxRetries, r, j);
        assert j > 0;
        assert SucceedsAt(script[1..], maxRetries, r', j - 1);
      }
      if exists j :: SucceedsAt(script[1..], maxRetries, r', j) {
        var j: nat :| SucceedsAt(script[1..], maxRetries, r', j);
        assert SucceedsAt(script, maxRetries, r, j + 1);
      }
    }
  }
}
