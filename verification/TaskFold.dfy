/**
 What a sequence of commands leaves behind: the first submission of a task fixes
 its payload, the last completion its error text, and nothing is forgotten.
 */
module TaskFold {
  import opened Codec
  import opened TaskState

  /** The command performs op on task id. */
  predicate Names(c: Command, op: string, id: string) {
    c.op == op && c.id == id
  }

  /** Every task of f is in f' with the same payload. */
  ghost predicate KeepsTasks(f: Facts, f': Facts) {
    forall id {:trigger id in f.submitted} {:trigger id in f'.submitted} :: id in f.submitted ==>
      id in f'.submitted && f'.submitted[id] == f.submitted[id]
  }

  /** Applying more never forgets: the commit order only grows at the end, no payload changes, and nothing is undone. */
  lemma {:induction false} FoldGrows(cs: seq<Command>, k: nat)
    requires k <= |cs|
    ensures Fold(cs[..k]).order <= Fold(cs).order
    ensures KeepsTasks(Fold(cs[..k]), Fold(cs))
    ensures Fold(cs[..k]).done <= Fold(cs).done
    decreases |cs|
  {
    if k == |cs| {
      assert cs[..k] == cs;
    } else {
      var before := cs[..|cs| - 1];
      assert before[..k] == cs[..k];
      FoldGrows(before, k);
    }
  }

  /** A task is known exactly if some command submitted it. */
  lemma {:induction false} KnownExactly(cs: seq<Command>, id: string)
    ensures id in Fold(cs).submitted <==> exists q :: 0 <= q < |cs| && Names(cs[q], SUBMIT, id)
  {
    if cs != [] {
      var last := |cs| - 1;
      KnownExactly(cs[..last], id);
      assert forall q :: 0 <= q < last ==> cs[..last][q] == cs[q];
      assert Names(cs[last], SUBMIT, id) ==> id in Fold(cs).submitted;
    }
  }

  /** A task is done exactly if some command completed it. */
  lemma {:induction false} DoneExactly(cs: seq<Command>, id: string)
    ensures id in Fold(cs).done <==> exists q :: 0 <= q < |cs| && Names(cs[q], COMPLETE, id)
    ensures id in Fold(cs).done <==> id in Fold(cs).errors
  {
    if cs != [] {
      var last := |cs| - 1;
      DoneExactly(cs[..last], id);
      assert forall q :: 0 <= q < last ==> cs[..last][q] == cs[q];
      assert Names(cs[last], COMPLETE, id) ==> id in Fold(cs).done;
    }
  }

  /** None of the commands performs op on task id. */
  ghost predicate NoneNames(cs: seq<Command>, op: string, id: string) {
    forall q {:trigger cs[q]} :: 0 <= q < |cs| ==> !Names(cs[q], op, id)
  }

  /** The first submission of a task fixes its payload. */
  lemma {:induction false} FirstSubmitWins(cs: seq<Command>, i: nat, id: string)
    requires i < |cs| && Names(cs[i], SUBMIT, id)
    ensures id in Fold(cs).submitted
    ensures NoneNames(cs[..i], SUBMIT, id) ==> Fold(cs).submitted[id] == cs[i].data
    decreases |cs|
  {
    var last := |cs| - 1;
    KnownExactly(cs, id);
    if i < last {
      assert cs[..last][..i] == cs[..i];
      FirstSubmitWins(cs[..last], i, id);
    } else {
      KnownExactly(cs[..last], id);
    }
  }

  /** The last completion of a task fixes its error text. */
  lemma {:induction false} LastCompleteWins(cs: seq<Command>, i: nat, id: string)
    requires i < |cs| && Names(cs[i], COMPLETE, id)
    ensures id in Fold(cs).done && id in Fold(cs).errors
    ensures NoneNames(cs[i + 1..], COMPLETE, id) ==> Fold(cs).errors[id] == cs[i].data
    decreases |cs|
  {
    var last := |cs| - 1;
    DoneExactly(cs, id);
    if i < last {
      LastCompleteWins(cs[..last], i, id);
      assert cs[i + 1..] == cs[..last][i + 1..] + [cs[last]];
      assert cs[i + 1..][last - i - 1] == cs[last];
    }
  }
}
