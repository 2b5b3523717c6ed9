/** What the comparison of instructions decides, and what it does not see: the second source. */
module MergeMeaning {
  import opened Rtl
  import opened MergeTables

  /** Alike are exactly the instructions that differ at most in their second source. */
  lemma SameInstExact(i: Instruction, j: Instruction)
    ensures SameInst(i, j) <==> i == j.(srcB := i.srcB)
  {
  }

  ghost predicate SameSeconds(x: seq<Instruction>, y: seq<Instruction>) {
    |x| == |y| && forall k: nat :: k < |x| ==> x[k].srcB == y[k].srcB
  }

  /** Alike code with the same second sources does the same on every machine. */
  lemma {:induction false} SimilarExec(alu: Alu, x: seq<Instruction>, y: seq<Instruction>, m: Machine)
    requires Similar(x, y) && SameSeconds(x, y)
    ensures Exec(alu, x, m) == Exec(alu, y, m)
  {
    hide Step;
    if x != [] {
      var n := |x| - 1;
      SimilarExec(alu, x[..n], y[..n], m);
      assert SameInst(x[n], y[n]) && x[n].srcB == y[n].srcB;
      SameInstExact(x[n], y[n]);
    }
  }

  // ----- Runs before and after a merge

  /** A run and its counterpart leave the same machine, if their second sources agree. */
  ghost predicate SameMachine(log: seq<Instruction>, t: Table, w: seq<nat>, t': Table, w': seq<nat>) {
    SameSeconds(Code(log, t', w'), Code(log, t, w)) ==>
      forall alu: Alu, m: Machine :: Exec(alu, Code(log, t', w'), m) == Exec(alu, Code(log, t, w), m)
  }

  ghost predicate Counterpart(log: seq<Instruction>, t: Table, w: seq<nat>, t': Table, w': seq<nat>, ends: set<nat>) {
    && w != [] && SameWay(w, w', ends) && |Code(log, t', w')| == |Code(log, t, w)|
    && SameMachine(log, t, w, t', w')
  }

  /** Every run of the one table has such a counterpart in the other. */
  ghost predicate Behaves(log: seq<Instruction>, t: Table, t': Table, ends: set<nat>) {
    && (forall w :: IsRun(t, w) ==> exists w' :: IsRun(t', w') && Counterpart(log, t, w, t', w', ends))
    && (forall w' :: IsRun(t', w') && w'[0] < |t.succ| ==> exists w :: IsRun(t, w) && Counterpart(log, t, w, t', w', ends))
  }

  lemma SameRunMeans(log: seq<Instruction>, t: Table, w: seq<nat>, t': Table, w': seq<nat>, ends: set<nat>)
    requires SameRun(log, t, w, t', w', ends)
    ensures Counterpart(log, t, w, t', w', ends)
  {
    hide Code, Exec;
    var x, y := Code(log, t', w'), Code(log, t, w);
    if SameSeconds(x, y) {
      forall alu: Alu, m: Machine ensures Exec(alu, x, m) == Exec(alu, y, m) {
        SimilarExec(alu, x, y, m);
      }
    }
  }

  /** Runs that are kept up to the comparison do the same up to second sources. */
  lemma PreservedBehaves(log: seq<Instruction>, t: Table, t': Table, ends: set<nat>)
    requires Preserves(log, t, t', ends)
    ensures Behaves(log, t, t', ends)
  {
    hide SameRun, Counterpart;
    forall w | IsRun(t, w) ensures exists w' :: IsRun(t', w') && Counterpart(log, t, w, t', w', ends) {
      assert HasRun(log, t, w, t', ends);
      var w' :| IsRun(t', w') && SameRun(log, t, w, t', w', ends);
      SameRunMeans(log, t, w, t', w', ends);
    }
    forall w' | IsRun(t', w') && w'[0] < |t.succ|
      ensures exists w :: IsRun(t, w) && Counterpart(log, t, w, t', w', ends)
    {
      assert CameFrom(log, t, t', w', ends);
      var w :| IsRun(t, w) && SameRun(log, t, w, t', w', ends);
      SameRunMeans(log, t, w, t', w', ends);
    }
  }
}
