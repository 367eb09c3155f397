/** An undisturbed turn of the daemon's loop in one go: all row updates, then all sends, and that
    this is a run of the daemon's atomic steps. */
module Passes {
  import opened Server

  /** Row updates one after the other. */
  function UpdateAll(c: Config, w: World, now: int, xs: seq<Selected>): World
    decreases |xs|
  {
    if xs == [] then w else UpdateRow(c, UpdateAll(c, w, now, xs[..|xs| - 1]), now, xs[|xs| - 1])
  }

  /** Sends one after the other. */
  function SendAll(w: World, xs: seq<Selected>): World
    decreases |xs|
  {
    if xs == [] then w else SendRetry(SendAll(w, xs[..|xs| - 1]), xs[|xs| - 1])
  }

  function PassResult(c: Config, w: World, now: int, order: seq<Key>): World
    requires forall k :: k in order ==> k in w.cache
  {
    SendAll(UpdateAll(c, w, now, SelectRows(w, order)), SelectRows(w, order))
  }

  lemma {:induction false} UpdateAllOnlyCache(c: Config, w: World, now: int, xs: seq<Selected>)
    ensures UpdateAll(c, w, now, xs) == w.(cache := UpdateAll(c, w, now, xs).cache)
    decreases |xs|
  {
    if xs != [] {
      UpdateAllOnlyCache(c, w, now, xs[..|xs| - 1]);
    }
  }

  /** The row updates look at nothing but the cache. */
  lemma {:induction false} UpdateAllReadsCache(c: Config, v: World, w: World, now: int, xs: seq<Selected>)
    requires v.cache == w.cache
    ensures UpdateAll(c, v, now, xs).cache == UpdateAll(c, w, now, xs).cache
    decreases |xs|
  {
    if xs != [] {
      UpdateAllReadsCache(c, v, w, now, xs[..|xs| - 1]);
    }
  }

  lemma {:induction false} SendAllOnlyLog(w: World, xs: seq<Selected>)
    ensures SendAll(w, xs) == w.(log := SendAll(w, xs).log)
    decreases |xs|
  {
    if xs != [] {
      SendAllOnlyLog(w, xs[..|xs| - 1]);
    }
  }

  lemma {:induction false} UpdateAllKeepsTexts(c: Config, w: World, now: int, xs: seq<Selected>)
    ensures UpdateAll(c, w, now, xs).cache.Keys == w.cache.Keys
    ensures forall k :: k in w.cache ==> UpdateAll(c, w, now, xs).cache[k].text == w.cache[k].text
    decreases |xs|
  {
    if xs != [] {
      UpdateAllKeepsTexts(c, w, now, xs[..|xs| - 1]);
    }
  }

  // ----- The undisturbed pass is a run of atomic steps -----

  lemma {:induction false} UpdateAllFromFront(c: Config, w: World, now: int, x: Selected, xs: seq<Selected>)
    ensures UpdateAll(c, w, now, [x] + xs) == UpdateAll(c, UpdateRow(c, w, now, x), now, xs)
    decreases |xs|
  {
    if xs == [] {
      assert [x] + xs == [x] && [x][..0] == [];
    } else {
      assert ([x] + xs)[..|xs|] == [x] + xs[..|xs| - 1];
      UpdateAllFromFront(c, w, now, x, xs[..|xs| - 1]);
    }
  }

  lemma SendAllLast(w: World, xs: seq<Selected>)
    requires xs != []
    ensures SendAll(w, xs) == SendRetry(SendAll(w, xs[..|xs| - 1]), xs[|xs| - 1])
  {
  }

  lemma SendAllSnoc(w: World, xs: seq<Selected>, i: nat)
    requires i < |xs|
    ensures SendAll(w, xs[..i + 1]) == SendRetry(SendAll(w, xs[..i]), xs[i])
  {
    assert xs[..i + 1][..i] == xs[..i];
  }

  lemma {:induction false} SendAllFromFront(w: World, x: Selected, xs: seq<Selected>)
    ensures SendAll(w, [x] + xs) == SendAll(SendRetry(w, x), xs)
    decreases |xs|
  {
    var ys := [x] + xs;
    SendAllLast(w, ys);
    if xs == [] {
      assert ys == [x] && ys[..0] == [];
    } else {
      SendAllLast(SendRetry(w, x), xs);
      assert ys[..|ys| - 1] == [x] + xs[..|xs| - 1] && ys[|ys| - 1] == xs[|xs| - 1];
      SendAllFromFront(w, x, xs[..|xs| - 1]);
    }
  }

  lemma {:induction false} SendsRun(c: Config, w: World, batch: seq<Selected>) returns (steps: seq<Step>)
    ensures Runs(c, Sys(w, Sending(batch)), steps)
    ensures End(c, Sys(w, Sending(batch)), steps) == Sys(SendAll(w, batch), Idle)
    decreases |batch|
  {
    var s := Sys(w, Sending(batch));
    if batch == [] {
      RunCons(c, s, EndPass, []);
      steps := [EndPass] + [];
    } else {
      assert batch == [batch[0]] + batch[1..];
      SendAllFromFront(w, batch[0], batch[1..]);
      var rest := SendsRun(c, SendRetry(w, batch[0]), batch[1..]);
      RunCons(c, s, SendNext, rest);
      steps := [SendNext] + rest;
    }
  }

  lemma {:induction false} UpdatesRun(c: Config, w: World, now: int, todo: seq<Selected>, batch: seq<Selected>)
      returns (steps: seq<Step>)
    ensures Runs(c, Sys(w, Updating(now, todo, batch)), steps)
    ensures End(c, Sys(w, Updating(now, todo, batch)), steps) ==
      Sys(SendAll(UpdateAll(c, w, now, todo), batch + todo), Idle)
    decreases |todo|
  {
    var s := Sys(w, Updating(now, todo, batch));
    if todo == [] {
      assert batch + todo == batch;
      var rest := SendsRun(c, w, batch);
      RunCons(c, s, StartSends, rest);
      steps := [StartSends] + rest;
    } else {
      assert todo == [todo[0]] + todo[1..];
      UpdateAllFromFront(c, w, now, todo[0], todo[1..]);
      assert (batch + [todo[0]]) + todo[1..] == batch + todo;
      var rest := UpdatesRun(c, UpdateRow(c, w, now, todo[0]), now, todo[1..], batch + [todo[0]]);
      RunCons(c, s, UpdateNext, rest);
      steps := [UpdateNext] + rest;
    }
  }

  /** What Pass does in one go is what the daemon's atomic steps do when nothing comes between. */
  lemma PassIsARun(c: Config, w: World, now: int, order: seq<Key>) returns (steps: seq<Step>)
    requires DueOrder(c, w, now, order)
    ensures Runs(c, Sys(w, Idle), steps)
    ensures forall k :: k in order ==> k in w.cache
    ensures End(c, Sys(w, Idle), steps) == Sys(PassResult(c, w, now, order), Idle)
  {
    assert forall k :: k in order ==> Due(c, w, now, k);
    var rows := SelectRows(w, order);
    assert [] + rows == rows;
    var rest := UpdatesRun(c, w, now, rows, []);
    RunCons(c, Sys(w, Idle), SelectDue(now, order), rest);
    steps := [SelectDue(now, order)] + rest;
  }
}
