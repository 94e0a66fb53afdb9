/** merge_markdown.py, `safe_download_md`: up to MAX_RETRIES download attempts
    of one Drive file, with a wait of 2^attempt seconds after a retried failure.
    The download is an oracle giving the outcome of each attempt; the waits are
    recorded instead of slept. */
module MdRetry {
  import opened Common

  const MaxRetries: nat := 3
  const TransientCodes: set<int> := {500, 502, 503, 504}

  /** What one call of `GetContentString` does: returns the text, raises an
      HttpError (whose response may lack a status), or raises any other
      Exception. */
  datatype Attempt = Fetched(text: string) | HttpErr(status: Option<int>) | OtherErr

  /** What `safe_download_md` ends with: a returned text, a re-raised
      exception, or `None` when the loop runs out. */
  datatype Download = Returned(text: string) | Raised | NoText

  /** The whole run: the result, the waits chosen in order, and the number of
      download attempts made. */
  datatype Trace = Trace(result: Download, waits: seq<nat>, attempts: nat)

  /** `getattr(e.resp, 'status', None) in TRANSIENT_CODES`. */
  predicate IsTransient(status: Option<int>)
  {
    status.Some? && status.value in TransientCodes
  }

  /** The failures after which the loop sleeps and tries again: a transient
      HTTP status on any attempt, any other exception before the last. */
  predicate Retried(o: Attempt, attempt: nat)
  {
    (o.HttpErr? && IsTransient(o.status)) || (o.OtherErr? && attempt < MaxRetries)
  }

  /** The loop from `attempt` on. */
  function RunFrom(server: nat -> Attempt, attempt: nat): Trace
    requires attempt >= 1
    decreases MaxRetries + 1 - attempt
  {
    if attempt > MaxRetries then Trace(NoText, [], 0)
    else
      var o := server(attempt);
      if o.Fetched? then Trace(Returned(o.text), [], 1)
      else if Retried(o, attempt) then
        var rest := RunFrom(server, attempt + 1);
        Trace(rest.result, [Pow2(attempt)] + rest.waits, 1 + rest.attempts)
      else Trace(Raised, [], 1)
  }

  /** `safe_download_md(drive, fid)`, with the download of each attempt given
      by `server`. */
  method SafeDownloadMd(server: nat -> Attempt) returns (result: Download, waits: seq<nat>, attempts: nat)
    ensures Trace(result, waits, attempts) == RunFrom(server, 1)
  {
    waits, attempts := [], 0;
    ghost var whole := RunFrom(server, 1);
    var attempt := 1;
    while attempt <= MaxRetries
      invariant 1 <= attempt <= MaxRetries + 1
      invariant attempts == attempt - 1
      invariant whole == Prepend(waits, attempts, RunFrom(server, attempt))
    {
      var o := server(attempt);
      if o.Fetched? {
        PrependStop(waits, attempts, server, attempt);
        return Returned(o.text), waits, attempts + 1;
      }
      var retry := if o.HttpErr? then IsTransient(o.status) else attempt < MaxRetries;
      assert retry == Retried(o, attempt);
      if !retry {
        PrependStop(waits, attempts, server, attempt);
        return Raised, waits, attempts + 1;
      }
      PrependRetried(waits, attempts, server, attempt);
      waits := waits + [Pow2(attempt)];
      attempts := attempts + 1;
      attempt := attempt + 1;
    }
    assert waits + [] == waits;
    result := NoText;
  }

  /** The trace of the attempts still to come, after `waits` and `attempts`
      already made. */
  function Prepend(waits: seq<nat>, attempts: nat, t: Trace): Trace
  {
    Trace(t.result, waits + t.waits, attempts + t.attempts)
  }

  lemma PrependStop(waits: seq<nat>, attempts: nat, server: nat -> Attempt, attempt: nat)
    requires 1 <= attempt <= MaxRetries
    requires server(attempt).Fetched? || !Retried(server(attempt), attempt)
    ensures Prepend(waits, attempts, RunFrom(server, attempt)) ==
      Trace(if server(attempt).Fetched? then Returned(server(attempt).text) else Raised, waits, attempts + 1)
  {
    assert waits + [] == waits;
  }

  lemma PrependRetried(waits: seq<nat>, attempts: nat, server: nat -> Attempt, attempt: nat)
    requires 1 <= attempt <= MaxRetries
    requires !server(attempt).Fetched? && Retried(server(attempt), attempt)
    ensures Prepend(waits, attempts, RunFrom(server, attempt))
         == Prepend(waits + [Pow2(attempt)], attempts + 1, RunFrom(server, attempt + 1))
  {
    var rest := RunFrom(server, attempt + 1);
    assert waits + ([Pow2(attempt)] + rest.waits) == waits + [Pow2(attempt)] + rest.waits;
  }

  /** At most MAX_RETRIES attempts, at least one; one wait per retried
      attempt, so a wait follows every attempt exactly when the result is None. */
  lemma {:induction false} TraceCounts(server: nat -> Attempt, a: nat)
    requires 1 <= a <= MaxRetries + 1
    ensures var t := RunFrom(server, a);
      t.attempts == |t.waits| + (if t.result == NoText then 0 else 1) &&
      t.attempts <= MaxRetries + 1 - a &&
      (a <= MaxRetries ==> t.attempts >= 1)
    decreases MaxRetries + 1 - a
  {
    if a <= MaxRetries {
      var o := server(a);
      if !o.Fetched? && Retried(o, a) {
        TraceCounts(server, a + 1);
      }
    }
  }

  /** The k-th wait is 2^attempt for the attempt it follows: 2, 4, 8 seconds. */
  lemma {:induction false} TraceWaits(server: nat -> Attempt, a: nat)
    requires 1 <= a <= MaxRetries + 1
    ensures var t := RunFrom(server, a);
      forall k :: 0 <= k < |t.waits| ==> t.waits[k] == Pow2(a + k)
    decreases MaxRetries + 1 - a
  {
    if a <= MaxRetries {
      var o := server(a);
      if !o.Fetched? && Retried(o, a) {
        TraceWaits(server, a + 1);
        var rest := RunFrom(server, a + 1);
        var t := RunFrom(server, a);
        assert t.waits == [Pow2(a)] + rest.waits;
        forall k | 0 <= k < |t.waits|
          ensures t.waits[k] == Pow2(a + k)
        {
          if k > 0 {
            assert t.waits[k] == rest.waits[k - 1];
          }
        }
      }
    }
  }

  /** None comes back exactly when every remaining attempt fails in a retried
      way, which on the last attempt means a transient HTTP status. */
  lemma {:induction false} NoTextIff(server: nat -> Attempt, a: nat)
    requires 1 <= a
    ensures RunFrom(server, a).result == NoText
        <==> forall b :: a <= b <= MaxRetries ==> Retried(server(b), b)
    decreases MaxRetries + 1 - a
  {
    if a <= MaxRetries {
      NoTextIff(server, a + 1);
    }
  }

  /** The text of attempt b is returned exactly when attempt b succeeds and
      every earlier one failed in a retried way: the first success ends the
      loop. */
  lemma {:induction false} ReturnedIff(server: nat -> Attempt, a: nat, b: nat, text: string)
    requires 1 <= a <= b <= MaxRetries
    ensures (RunFrom(server, a).result == Returned(text) && RunFrom(server, a).attempts == b - a + 1)
        <==> (server(b) == Fetched(text) && forall c :: a <= c < b ==> Retried(server(c), c))
    decreases b - a
  {
    if a < b {
      ReturnedIff(server, a + 1, b, text);
      if server(a).Fetched? || !Retried(server(a), a) {
        TraceCounts(server, a + 1);
      }
    }
  }

  /** The first failure that is not retried is re-raised on the spot: a
      non-transient HTTP status on any attempt, another exception on the last. */
  lemma {:induction false} RaisedAt(server: nat -> Attempt, a: nat, b: nat)
    requires 1 <= a <= b <= MaxRetries
    requires forall c :: a <= c < b ==> Retried(server(c), c)
    requires !server(b).Fetched? && !Retried(server(b), b)
    ensures RunFrom(server, a).result == Raised && RunFrom(server, a).attempts == b - a + 1
    decreases b - a
  {
    if a < b {
      RaisedAt(server, a + 1, b);
    }
  }

  /** A server that always answers 503 is tried three times, waited on after
      each (2, 4 and 8 seconds), and yields None. */
  lemma AlwaysUnavailable(server: nat -> Attempt)
    requires forall a :: server(a) == HttpErr(Some(503))
    ensures RunFrom(server, 1) == Trace(NoText, [2, 4, 8], 3)
  {
    assert RunFrom(server, 4) == Trace(NoText, [], 0);
    assert RunFrom(server, 3) == Trace(NoText, [8], 1);
    assert RunFrom(server, 2) == Trace(NoText, [4, 8], 2);
  }

  /** A 404 is raised on the first attempt without any wait. */
  lemma NotFoundRaisesAtOnce(server: nat -> Attempt)
    requires server(1) == HttpErr(Some(404))
    ensures RunFrom(server, 1) == Trace(Raised, [], 1)
  {
  }

  /** A non-HTTP error every time is retried twice and raised on the third. */
  lemma OtherErrorRaisedOnLast(server: nat -> Attempt)
    requires forall a :: server(a) == OtherErr
    ensures RunFrom(server, 1) == Trace(Raised, [2, 4], 3)
  {
    assert RunFrom(server, 3) == Trace(Raised, [], 1);
    assert RunFrom(server, 2) == Trace(Raised, [4], 2);
  }

  /** A 502 then a success: one wait of 2 seconds, then the text. */
  lemma RecoversAfterOneFailure(server: nat -> Attempt, text: string)
    requires server(1) == HttpErr(Some(502)) && server(2) == Fetched(text)
    ensures RunFrom(server, 1) == Trace(Returned(text), [2], 2)
  {
    assert RunFrom(server, 2) == Trace(Returned(text), [], 1);
  }
}
