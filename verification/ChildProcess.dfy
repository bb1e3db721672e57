/** What the backends cannot foresee: the child's output, its end, and the clock. */
module ChildProcess {
  import opened Common

  /** One thing a backend did with the child: look for output, with what it found when, or sleep. */
  datatype Beat<Chunk> = Look(chunks: seq<Chunk>, at: nat, running: bool) | Nap(ms: nat)

  /** Everything the looks brought, in order. */
  function Arrived<Chunk>(beats: seq<Beat<Chunk>>): seq<Chunk> {
    if beats == [] then []
    else
      var last := beats[|beats| - 1];
      Arrived(beats[..|beats| - 1]) + (if last.Look? then last.chunks else [])
  }

  predicate EndsInLook<Chunk>(beats: seq<Beat<Chunk>>) { beats != [] && beats[|beats| - 1].Look? }

  /** `first` looks in a row, and from there on a nap of 15 ms between one look and the next. */
  predicate Polling<Chunk>(beats: seq<Beat<Chunk>>, first: nat) {
    beats == [] ||
    var earlier, last := beats[..|beats| - 1], beats[|beats| - 1];
    && Polling(earlier, first)
    && if |earlier| < first || !EndsInLook(earlier) then last.Look? else last.Nap? && last.ms == 15
  }

  predicate NoNap<Chunk>(beats: seq<Beat<Chunk>>) {
    forall i :: 0 <= i < |beats| ==> beats[i].Look?
  }

  /** The looks were taken one after the other, up to now. */
  predicate InOrder<Chunk>(beats: seq<Beat<Chunk>>, now: nat) {
    && (forall i :: 0 <= i < |beats| && beats[i].Look? ==> beats[i].at <= now)
    && (forall i, j :: 0 <= i < j < |beats| && beats[i].Look? && beats[j].Look? ==> beats[i].at <= beats[j].at)
  }

  lemma InOrderSnoc<Chunk>(beats: seq<Beat<Chunk>>, before: nat, beat: Beat<Chunk>, now: nat)
    requires InOrder(beats, before) && before <= now && (beat.Look? ==> beat.at == now)
    ensures InOrder(beats + [beat], now)
  {
  }

  lemma InOrderTo<Chunk>(beats: seq<Beat<Chunk>>, now: nat, n: nat)
    requires InOrder(beats, now) && n <= |beats|
    ensures InOrder(beats[..n], now)
  {
  }

  // ----- quiet intervals --------------------------------------------------

  /** `Instant::elapsed`. */
  function Elapsed(now: nat, since: nat): nat { if now >= since then now - since else 0 }

  /** The looks that brought output. */
  function OutputLooks<Chunk>(beats: seq<Beat<Chunk>>): set<nat> {
    set i: nat | i < |beats| && beats[i].Look? && |beats[i].chunks| > 0
  }

  predicate AreLooks<Chunk>(beats: seq<Beat<Chunk>>, hits: set<nat>) {
    forall i :: i in hits ==> i < |beats| && beats[i].Look?
  }

  /**
   At the last look, the newest of the looks `hits` lies at least `q` ms back, and
   so does each of them; without any, the instant `since` does.
  */
  predicate Quiet<Chunk>(beats: seq<Beat<Chunk>>, hits: set<nat>, since: nat, q: nat)
    requires EndsInLook(beats) && AreLooks(beats, hits)
  {
    var now := beats[|beats| - 1].at;
    (forall i :: i in hits ==> beats[i].at + q <= now) && (hits == {} ==> q == 0 || since + q <= now)
  }

  /** `at` is when the newest of the looks `hits` was taken, or `since` if there is none. */
  ghost predicate NewestOf<Chunk>(beats: seq<Beat<Chunk>>, hits: set<nat>, since: nat, at: nat)
    requires AreLooks(beats, hits)
  {
    if hits == {} then at == since else exists i :: i in hits && beats[i].at == at && forall j :: j in hits ==> j <= i
  }

  lemma NewestSnoc<Chunk>(beats: seq<Beat<Chunk>>, hits: set<nat>, since: nat, at: nat, beat: Beat<Chunk>)
    requires AreLooks(beats, hits) && NewestOf(beats, hits, since, at)
    ensures AreLooks(beats + [beat], hits) && NewestOf(beats + [beat], hits, since, at)
    ensures beat.Look? ==> var hits' := hits + {|beats|};
                           AreLooks(beats + [beat], hits') && NewestOf(beats + [beat], hits', since, beat.at)
  {
    if hits != {} {
      var i :| i in hits && beats[i].at == at && forall j :: j in hits ==> j <= i;
      assert (beats + [beat])[i].at == at;
    }
    if beat.Look? { assert |beats| in hits + {|beats|} && (beats + [beat])[|beats|].at == beat.at; }
  }

  /** Measuring from the newest one is asking for the quiet interval. */
  lemma QuietMeans<Chunk>(beats: seq<Beat<Chunk>>, hits: set<nat>, since: nat, at: nat, q: nat, now: nat)
    requires EndsInLook(beats) && AreLooks(beats, hits) && InOrder(beats, now) && NewestOf(beats, hits, since, at)
    ensures Elapsed(beats[|beats| - 1].at, at) >= q <==> Quiet(beats, hits, since, q)
  {
    if hits != {} {
      var i :| i in hits && beats[i].at == at && forall j :: j in hits ==> j <= i;
      assert forall j :: j in hits ==> beats[j].at <= at;
      assert at <= beats[|beats| - 1].at;
    }
  }

  lemma {:induction false} OutputAtIsNewest<Chunk>(beats: seq<Beat<Chunk>>, since: nat)
    ensures AreLooks(beats, OutputLooks(beats))
    ensures NewestOf(beats, OutputLooks(beats), since, OutputAt(beats, since))
  {
    if beats != [] {
      var init, last := beats[..|beats| - 1], beats[|beats| - 1];
      OutputAtIsNewest(init, since);
      NewestSnoc(init, OutputLooks(init), since, OutputAt(init, since), last);
      assert beats == init + [last];
      if last.Look? && |last.chunks| > 0 { assert OutputLooks(beats) == OutputLooks(init) + {|init|}; }
      else { assert OutputLooks(beats) == OutputLooks(init); }
    }
  }

  /** When output last came. */
  function OutputAt<Chunk>(beats: seq<Beat<Chunk>>, since: nat): nat {
    if beats == [] then since
    else
      var last := beats[|beats| - 1];
      if last.Look? && |last.chunks| > 0 then last.at else OutputAt(beats[..|beats| - 1], since)
  }

  lemma PollingSnoc<Chunk>(beats: seq<Beat<Chunk>>, first: nat, beat: Beat<Chunk>)
    requires Polling(beats, first)
    requires if |beats| < first || !EndsInLook(beats) then beat.Look? else beat.Nap? && beat.ms == 15
    ensures Polling(beats + [beat], first)
  {
    assert (beats + [beat])[..|beats|] == beats;
  }

  lemma ArrivedSnoc<Chunk>(beats: seq<Beat<Chunk>>, beat: Beat<Chunk>)
    ensures Arrived(beats + [beat]) == Arrived(beats) + (if beat.Look? then beat.chunks else [])
  {
  }

  lemma {:induction false} ArrivedConcat<Chunk>(a: seq<Beat<Chunk>>, b: seq<Beat<Chunk>>)
    ensures Arrived(a + b) == Arrived(a) + Arrived(b)
  {
    if b == [] {
      assert a + b == a;
    } else {
      assert (a + b)[..|a + b| - 1] == a + b[..|b| - 1];
      ArrivedConcat(a, b[..|b| - 1]);
    }
  }

  /**
   The child and the clock, as an adversary: any number of chunks may have
   arrived whenever a backend looks, the process may die at any moment, and a
   sleep lasts at least as long as asked.
  */
  class Child<Chunk> {
    var now: nat
    var running: bool
    /** Every look and every nap so far. */
    ghost var log: seq<Beat<Chunk>>

    constructor ()
      ensures log == []
    {
      now, running, log := 0, true, [];
    }

    method Drain() returns (chunks: seq<Chunk>)
      modifies this
      ensures now >= old(now)
      ensures log == old(log) + [Look(chunks, now, running)]
      ensures running ==> old(running)
    {
      var arrived: seq<Chunk> := *;
      var passed: int := *;
      var alive: bool := *;
      chunks := arrived;
      now, running := now + Max(passed, 0), running && alive;
      log := log + [Look(chunks, now, running)];
    }

    method Sleep(ms: nat)
      modifies this
      ensures now >= old(now) + ms && running == old(running)
      ensures log == old(log) + [Nap(ms)]
    {
      var longer: int := *;
      now := now + ms + Max(longer, 0);
      log := log + [Nap(ms)];
    }
  }
}
