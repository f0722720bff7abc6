/** Enumerating objects: complete, in table order and without repeats. */
module Finding {
  import opened Pkcs11
  import opened Runs

  // ----- what a search collects -----

  /** Whether h is the handle of an object that matches every template entry. */
  predicate IsMatch(objects: seq<KeyObject>, template: seq<Attr>, h: nat) {
    1 <= h <= |objects| && ObjectMatches(objects[h - 1], template)
  }

  predicate Increasing(hs: seq<nat>) {
    forall i, j | 0 <= i < j < |hs| :: hs[i] < hs[j]
  }

  /** The handles collected are increasing and exactly those of the matching objects. */
  lemma {:induction false} MatchingMeaning(objects: seq<KeyObject>, template: seq<Attr>)
    requires forall k | 0 <= k < |objects| :: objects[k].handle == k + 1
    ensures Increasing(MatchingHandles(objects, template))
    ensures forall h: nat :: h in MatchingHandles(objects, template) <==> IsMatch(objects, template, h)
  {
    if objects != [] {
      var front, last := objects[..|objects| - 1], objects[|objects| - 1];
      MatchingMeaning(front, template);
      var hs, all := MatchingHandles(front, template), MatchingHandles(objects, template);
      forall h: nat
        ensures h in all <==> IsMatch(objects, template, h)
      {
        assert h in hs <==> IsMatch(front, template, h);
        if h < |objects| {
          assert IsMatch(objects, template, h) == IsMatch(front, template, h);
        }
      }
      forall i, j | 0 <= i < j < |all|
        ensures all[i] < all[j]
      {
        assert all[i] in hs;
        assert IsMatch(front, template, all[i]);
      }
    }
  }

  /** Among objects with distinct ids, a template with one id finds exactly its object. */
  lemma {:induction false} OneIdOneObject(objects: seq<KeyObject>, k: nat)
    requires forall i | 0 <= i < |objects| :: objects[i].handle == i + 1
    requires forall i, j | 0 <= i < j < |objects| :: objects[i].id != objects[j].id
    requires k < |objects|
    ensures MatchingHandles(objects, [Attr(Id, objects[k].id)]) == [k + 1]
  {
    hide MatchingHandles, Increasing;
    var template := [Attr(Id, objects[k].id)];
    var hs := MatchingHandles(objects, template);
    MatchingMeaning(objects, template);
    forall h: nat
      ensures h in hs <==> h == k + 1
    {
      OneIdMatch(objects, k, h);
    }
    OnlyOne(hs, k + 1);
  }

  lemma OneIdMatch(objects: seq<KeyObject>, k: nat, h: nat)
    requires forall i, j | 0 <= i < j < |objects| :: objects[i].id != objects[j].id
    requires k < |objects|
    ensures IsMatch(objects, [Attr(Id, objects[k].id)], h) <==> h == k + 1
  {
    var template := [Attr(Id, objects[k].id)];
    if 1 <= h <= |objects| {
      assert ObjectMatches(objects[h - 1], template) <==> EntryMatches(objects[h - 1], template[0]);
    }
  }

  lemma OnlyOne(hs: seq<nat>, x: nat)
    requires Increasing(hs)
    requires forall h: nat :: h in hs <==> h == x
    ensures hs == [x]
  {
    FirstTwoDiffer(hs);
    assert x in hs;
    assert forall i | 0 <= i < |hs| :: hs[i] in hs;
  }

  lemma FirstTwoDiffer(hs: seq<nat>)
    requires Increasing(hs)
    ensures |hs| > 1 ==> hs[0] != hs[1]
  {
  }

  // ----- results across a run -----

  /** All handles handed out by the calls of a run. */
  ghost function Collected(env: Env, w: World, cs: seq<Call>): seq<nat>
    requires Inv(w)
    decreases |cs|
  {
    if cs == [] then []
    else
      StepKeepsInv(env, w, cs[0]);
      var o := Step(env, w, cs[0]);
      (if o.reply.Found? then o.reply.handles else []) + Collected(env, o.w, cs[1..])
  }

  /** No call but FindObjectsFinal disturbs a search under way: each batch continues
      where the last one ended, on whatever session it is asked. */
  lemma FindStep(env: Env, w: World, c: Call)
    requires Inv(w) && w.find.active && !c.FindObjectsFinal?
    ensures var o := Step(env, w, c);
            && o.w.find == w.find.(pos := o.w.find.pos)
            && w.find.pos <= o.w.find.pos <= |w.find.handles|
            && (if o.reply.Found? then o.reply.handles else []) == w.find.handles[w.find.pos..o.w.find.pos]
  {
    hide Inv;
    SlotCount(w);
    if IsSigningCall(c) {
      SigningChangesOnlyOp(env, w, c);
      SigningFindsNothing(env, w, c);
    }
  }

  lemma SigningFindsNothing(env: Env, w: World, c: Call)
    requires Inv(w) && IsSigningCall(c)
    ensures !Step(env, w, c).reply.Found?
  {
    hide Inv, Produce;
  }

  lemma {:induction false} FindRun(env: Env, w: World, cs: seq<Call>)
    requires Inv(w) && w.find.active
    requires forall c | c in cs :: !c.FindObjectsFinal?
    ensures var w' := Run(env, w, cs);
            && w'.find == w.find.(pos := w'.find.pos)
            && w.find.pos <= w'.find.pos <= |w.find.handles|
            && Collected(env, w, cs) == w.find.handles[w.find.pos..w'.find.pos]
    decreases |cs|
  {
    hide Inv, Step;
    SlotCount(w);
    if cs != [] {
      var w1 := Step(env, w, cs[0]).w;
      FindStep(env, w, cs[0]);
      StepKeepsInv(env, w, cs[0]);
      FindRun(env, w1, cs[1..]);
      var hs, w' := w.find.handles, Run(env, w1, cs[1..]);
      assert hs[w.find.pos..w1.find.pos] + hs[w1.find.pos..w'.find.pos] == hs[w.find.pos..w'.find.pos];
    }
  }

  lemma InitStarts(env: Env, w: World, h: nat, template: seq<Attr>)
    requires Inv(w) && Step(env, w, FindObjectsInit(h, template)).reply == Status(Ok)
    ensures Inv(Step(env, w, FindObjectsInit(h, template)).w)
    ensures Step(env, w, FindObjectsInit(h, template)).w.find == Find(true, MatchingHandles(w.objects, template), 0)
  {
    FindCallsKeepInv(env, w, FindObjectsInit(h, template));
  }

  /** A batch shorter than asked for is the last one. */
  lemma ShortBatchIsLast(env: Env, w: World, c: Call)
    requires Inv(w) && w.find.active && c.FindObjects?
    requires Step(env, w, c).reply.Found? && |Step(env, w, c).reply.handles| < c.max
    ensures Step(env, w, c).w.find.pos == |w.find.handles|
  {
  }

  /** For any batch sizes and any calls in between, what a search has handed out is a
      prefix of the matching handles, and all of them once a batch came back short. */
  lemma FindIsComplete(env: Env, w: World, h: nat, template: seq<Attr>, cs: seq<Call>, last: Call)
    requires Inv(w)
    requires Step(env, w, FindObjectsInit(h, template)).reply == Status(Ok)
    requires forall c | c in cs :: !c.FindObjectsFinal?
    requires last.FindObjects?
    ensures Inv(Step(env, w, FindObjectsInit(h, template)).w)
    ensures var w0 := Step(env, w, FindObjectsInit(h, template)).w;
            var o := Step(env, Run(env, w0, cs), last);
            var all := MatchingHandles(w.objects, template);
            && Collected(env, w0, cs) <= all
            && (o.reply.Found? ==> Collected(env, w0, cs) + o.reply.handles <= all)
            && (o.reply.Found? && |o.reply.handles| < last.max ==> Collected(env, w0, cs) + o.reply.handles == all)
  {
    hide Inv, Step, Run, Collected, MatchingHandles;
    InitStarts(env, w, h, template);
    var w0 := Step(env, w, FindObjectsInit(h, template)).w;
    var all := MatchingHandles(w.objects, template);
    FindRun(env, w0, cs);
    var w1 := Run(env, w0, cs);
    FindStep(env, w1, last);
    var o := Step(env, w1, last);
    if o.reply.Found? && |o.reply.handles| < last.max {
      ShortBatchIsLast(env, w1, last);
    }
    assert all[0..w1.find.pos] + all[w1.find.pos..o.w.find.pos] == all[0..o.w.find.pos];
  }

  /** At most the first n. */
  function UpTo(hs: seq<nat>, n: nat): seq<nat> {
    if n <= |hs| then hs[..n] else hs
  }

  /** Finalize and Initialize leave the search of the old object table in place: a new
      search can start after them exactly when none was under way before, and until
      then FindObjects goes on handing out handles of the old table. */
  lemma CursorOutlivesFinalize(env: Env, w: World, up: Call, open: Call, template: seq<Attr>, max: nat)
    requires Inv(w) && up.Initialize? && open.OpenSession?
    requires var w1 := Step(env, w, Finalize(false)).w;
             Inv(w1) && Step(env, w1, up).reply == Status(Ok)
    requires var w2 := Step(env, Step(env, w, Finalize(false)).w, up).w;
             Inv(w2) && Step(env, w2, open).reply.Opened?
    ensures var w2 := Step(env, Step(env, w, Finalize(false)).w, up).w;
            var o := Step(env, w2, open);
            && Inv(o.w) && o.w.find == w.find
            && (Step(env, o.w, FindObjectsInit(o.reply.handle, template)).reply == Status(OperationActive)
                <==> w.find.active)
            && (w.find.active ==>
                  Step(env, o.w, FindObjects(o.reply.handle, true, max)).reply
                  == Found(Ok, UpTo(w.find.handles[w.find.pos..], max)))
  {
    var w2 := Step(env, Step(env, w, Finalize(false)).w, up).w;
    var o := Step(env, w2, open);
    StepKeepsInv(env, w2, open);
    FindsSlot(o.w, FirstClosed(w2.slots));
  }
}
