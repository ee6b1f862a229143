/**
 * The callback the editor resolver of `registerEditorProvider` attaches to
 * a widget's disposal: the widget's reference to its document model is
 * released at once when the model is clean; when it is dirty, a one-shot
 * dirty-changed listener releases it on the first notification after which
 * the model is clean, so that a dirty document stays alive long enough to
 * be saved.
 */
module DeferredRelease {
  import opened CustomDocument
  import opened CustomDocumentProperties

  /** The widget's model reference after the widget is gone. */
  datatype Reference = Waiting | Released

  /** The widget-dispose callback. */
  function OnWidgetDisposed(m: Model): (r: Reference)
    ensures r == Released <==> !Dirty(m)
  {
    if Dirty(m) then Waiting else Released
  }

  /** The dirty-changed listener: it acts only while waiting and only on a clean model. */
  function OnDirtyChanged(r: Reference, m: Model): (r': Reference) {
    if r == Waiting && !Dirty(m) then Released else r
  }

  /**
   * The reference after a sequence of calls on the model, each call's
   * dirty-changed notification (if it fires one) delivered to the listener.
   */
  function Track(r: Reference, m: Model, ops: seq<Op>): (r': Reference)
    requires Valid(m)
    decreases |ops|
  {
    if ops == [] then r
    else
      var t := Step(m, ops[0]);
      var r' := if DirtyChanged in t.effects then OnDirtyChanged(r, t.next) else r;
      Track(r', t.next, ops[1..])
  }

  /** A released reference is never released again nor taken back. */
  lemma {:induction false} ReleaseIsFinal(m: Model, ops: seq<Op>)
    requires Valid(m)
    ensures Track(Released, m, ops) == Released
    decreases |ops|
  {
    if ops != [] {
      ReleaseIsFinal(Step(m, ops[0]).next, ops[1..]);
    }
  }

  /** The model after the first `k` calls is the model after the rest of them, from the first call's result. */
  lemma RunPrefix(m: Model, ops: seq<Op>, k: nat)
    requires Valid(m) && 0 < k <= |ops|
    ensures Run(m, ops[..k]) == Run(Step(m, ops[0]).next, ops[1..][..k - 1])
  {
    var p := ops[..k];
    assert p[0] == ops[0];
    assert p[1..] == ops[1..][..k - 1];
  }

  /**
   * The reference of a widget disposed while its model was dirty is released
   * exactly when the model is clean after some prefix of the later calls.
   */
  lemma {:induction false} ReleasedWhenFirstClean(m: Model, ops: seq<Op>)
    requires Valid(m) && Dirty(m)
    ensures Track(Waiting, m, ops) == Released <==>
              exists k :: 0 < k <= |ops| && !Dirty(Run(m, ops[..k]))
    decreases |ops|
  {
    if ops != [] {
      var t := Step(m, ops[0]);
      StepFiresIffFlip(m, ops[0]);
      CountPositive(t.effects, DirtyChanged);
      RunPrefix(m, ops, 1);
      assert Run(m, ops[..1]) == t.next;
      if !Dirty(t.next) {
        ReleaseIsFinal(t.next, ops[1..]);
      } else {
        ReleasedWhenFirstClean(t.next, ops[1..]);
        if exists k :: 0 < k <= |ops| && !Dirty(Run(m, ops[..k])) {
          var k :| 0 < k <= |ops| && !Dirty(Run(m, ops[..k]));
          RunPrefix(m, ops, k);
          assert 0 < k - 1 <= |ops[1..]| && !Dirty(Run(t.next, ops[1..][..k - 1]));
        }
        if exists k' :: 0 < k' <= |ops[1..]| && !Dirty(Run(t.next, ops[1..][..k'])) {
          var k' :| 0 < k' <= |ops[1..]| && !Dirty(Run(t.next, ops[1..][..k']));
          RunPrefix(m, ops, k' + 1);
          assert !Dirty(Run(m, ops[..k' + 1]));
        }
      }
    }
  }

  /**
   * From the widget's disposal on: its reference is released exactly when
   * the model is clean at the disposal or after some prefix of the later calls.
   */
  lemma WidgetReferenceReleased(m: Model, ops: seq<Op>)
    requires Valid(m)
    ensures Track(OnWidgetDisposed(m), m, ops) == Released <==>
              exists k :: 0 <= k <= |ops| && !Dirty(Run(m, ops[..k]))
  {
    assert Run(m, ops[..0]) == m;
    if Dirty(m) {
      ReleasedWhenFirstClean(m, ops);
      if exists k :: 0 <= k <= |ops| && !Dirty(Run(m, ops[..k])) {
        var k :| 0 <= k <= |ops| && !Dirty(Run(m, ops[..k]));
        assert k != 0;
      }
    } else {
      ReleaseIsFinal(m, ops);
    }
  }
}
