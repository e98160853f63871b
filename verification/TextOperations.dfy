/**
 * The text operations of the collaboration server and the rebasing of their positions.
 *
 * A text is a list of atoms. In the server an atom is a UTF-16 code unit; the functions are
 * parametric in it, so the theorems can also be read with atoms that carry an identity.
 */
module TextOperations {
  import opened Sequences

  datatype Kind = Insert | Delete | Replace

  datatype Operation<T> = Operation(
    id: string,
    userId: string,
    kind: Kind,
    position: int,
    length: Option<int>,
    content: Option<seq<T>>,
    baseVersion: int,
    timestamp: int)
  {
    /** `operation.content ?? ""` */
    function Inserted(): seq<T> {
      content.GetOr([])
    }

    /** `operation.length ?? 0` */
    function Span(): int {
      length.GetOr(0)
    }

    /** How many atoms the splice removes when nothing is clamped. */
    function Removed(): int {
      if kind.Insert? then 0 else Span()
    }

    /** What the splice puts in. */
    function Added(): seq<T> {
      if kind.Delete? then [] else Inserted()
    }

    /** Neither the position nor the length is negative. */
    predicate WellFormed() {
      0 <= position && 0 <= Span()
    }
  }

  /** The index a `slice` argument denotes: negative ones count from the end, all are clamped. */
  function SliceIndex(n: nat, i: int): (k: nat)
    ensures k <= n
  {
    if i < 0 then Max(n + i, 0) else Min(i, n)
  }

  /** `s.slice(0, i)` */
  function Before<T>(s: seq<T>, i: int): seq<T> {
    s[..SliceIndex(|s|, i)]
  }

  /** `s.slice(i)` */
  function From<T>(s: seq<T>, i: int): seq<T> {
    s[SliceIndex(|s|, i)..]
  }

  function ApplyTextOperation<T>(content: seq<T>, op: Operation<T>): seq<T> {
    match op.kind
    case Insert => Before(content, op.position) + op.Inserted() + From(content, op.position)
    case Delete => Before(content, op.position) + From(content, op.position + op.Span())
    case Replace => Before(content, op.position) + op.Inserted() + From(content, op.position + op.Span())
  }

  /** The text after a whole log. */
  function ApplyAll<T>(ops: seq<Operation<T>>, content: seq<T>): seq<T> {
    if ops == [] then content
    else ApplyTextOperation(ApplyAll(ops[..|ops| - 1], content), ops[|ops| - 1])
  }

  /** A position moved over one operation that was applied before it. */
  function RebaseOver<T>(applied: Operation<T>, position: int): int {
    match applied.kind
    case Insert =>
      if applied.position <= position then position + |applied.Inserted()| else position
    case Delete =>
      if applied.position < position then Max(applied.position, position - applied.Span()) else position
    case Replace =>
      if applied.position < position
      then Max(applied.position, position + (|applied.Inserted()| - applied.Span()))
      else position
  }

  /** A position moved over a list of later operations, oldest first. */
  function Rebase<T>(later: seq<Operation<T>>, position: int): int {
    if later == [] then position
    else RebaseOver(later[|later| - 1], Rebase(later[..|later| - 1], position))
  }

  ghost predicate AllWellFormed<T>(ops: seq<Operation<T>>) {
    forall k :: 0 <= k < |ops| ==> ops[k].WellFormed()
  }

  /** Nothing the operations put in occurs in `base`: an atom of `base` seen later is the original one. */
  ghost predicate AddsFreshAtoms<T>(ops: seq<Operation<T>>, base: seq<T>) {
    forall k :: 0 <= k < |ops| ==> forall a :: a in base ==> a !in ops[k].Added()
  }

  // ----- one splice -----

  /** Where the atom at `j` of the spliced text stood before the splice, for an atom that was not put in. */
  ghost function Origin<T>(op: Operation<T>, n: nat, j: int): int {
    if j < SliceIndex(n, op.position) then j
    else j - |op.Added()| - SliceIndex(n, op.position) + SliceIndex(n, op.position + op.Removed())
  }

  /** The spliced text, atom by atom. */
  lemma SpliceAt<T>(op: Operation<T>, content: seq<T>, j: nat)
    requires op.WellFormed() && j < |ApplyTextOperation(content, op)|
    ensures
      var from, after := SliceIndex(|content|, op.position), ApplyTextOperation(content, op);
      if from <= j < from + |op.Added()| then after[j] == op.Added()[j - from]
      else 0 <= Origin(op, |content|, j) < |content| && after[j] == content[Origin(op, |content|, j)]
  {
    var from := SliceIndex(|content|, op.position);
    var to := SliceIndex(|content|, op.position + op.Removed());
    assert ApplyTextOperation(content, op) == content[..from] + op.Added() + content[to..];
  }

  /** A splice keeps the atoms outside the removed range, in place before it and shifted after it. */
  lemma SpliceKeepsOrigin<T>(op: Operation<T>, content: seq<T>, j: nat)
    requires op.WellFormed() && j < |ApplyTextOperation(content, op)|
    requires ApplyTextOperation(content, op)[j] !in op.Added()
    ensures 0 <= Origin(op, |content|, j) < |content|
    ensures content[Origin(op, |content|, j)] == ApplyTextOperation(content, op)[j]
  {
    hide ApplyTextOperation, Origin;
    SpliceAt(op, content, j);
  }

  /** Rebasing over one splice keeps the order between the position and every surviving atom. */
  lemma RebaseOverKeepsSides<T>(op: Operation<T>, content: seq<T>, position: int, j: nat)
    requires op.WellFormed() && 0 <= position <= |content|
    requires j < |ApplyTextOperation(content, op)|
    requires ApplyTextOperation(content, op)[j] !in op.Added()
    ensures Origin(op, |content|, j) < position <==> j < RebaseOver(op, position)
  {
    hide ApplyTextOperation;
    SpliceAt(op, content, j);
  }

  lemma RebaseOverStaysInRange<T>(op: Operation<T>, content: seq<T>, position: int)
    requires op.WellFormed() && 0 <= position <= |content|
    ensures 0 <= RebaseOver(op, position) <= |ApplyTextOperation(content, op)|
  {
  }

  /**
   * Where a cursor at `p` is after an operation, told by the lengths of the texts around it. In front of
   * the operation, and right at a delete or replace, it keeps the text before it. Behind an insert it
   * keeps the text behind it. Behind the start of a delete or replace it keeps as much of that as can be
   * behind the start; text that the operation claims to remove past the end counts as being there.
   */
  ghost predicate CursorMoved<T>(op: Operation<T>, content: seq<T>, p: int, q: int) {
    var after := ApplyTextOperation(content, op);
    if p < op.position || (p == op.position && !op.kind.Insert?) then q == p
    else if op.kind.Insert? then |after| - q == |content| - p
    else |after| - q == Min(Max(|content|, op.position + op.Removed()) - p, |after| - op.position)
  }

  lemma RebaseOverMovesCursor<T>(op: Operation<T>, content: seq<T>, p: int)
    requires op.WellFormed() && 0 <= p <= |content|
    ensures CursorMoved(op, content, p, RebaseOver(op, p))
    ensures forall q :: CursorMoved(op, content, p, q) ==> q == RebaseOver(op, p)
  {
  }

  /** A cursor inside a replaced range, concretely. */
  lemma CursorInReplacedRange(content: string, op: Operation<char>)
    requires content == "abcdef" && op.kind.Replace? && op.position == 1
    requires op.length == Some(3) && op.content == Some("XY")
    ensures ApplyTextOperation(content, op) == "aXYef" && RebaseOver(op, 3) == 2
  {
  }

  // ----- missing fields and slices -----

  /** What is not given counts as nothing. */
  lemma MissingFieldsDoNothing<T>(content: seq<T>, op: Operation<T>)
    requires 0 <= op.position
    ensures op.kind.Insert? && op.content.None? ==> ApplyTextOperation(content, op) == content
    ensures op.kind.Delete? && op.length.None? ==> ApplyTextOperation(content, op) == content
    ensures op.kind.Replace? && op.content.None? && op.length.None? ==> ApplyTextOperation(content, op) == content
    ensures op.content.None? && op.length.None? ==> forall p :: RebaseOver(op, p) == p
  {
  }

  /** A slice from `-k` on holds the last `k` elements, and the one up to there the others. */
  lemma SliceFromEnd<T>(s: seq<T>, k: int)
    requires 0 < k
    ensures Before(s, -k) + From(s, -k) == s && |From(s, -k)| == Min(k, |s|)
  {
  }

  /** Inside the text a slice cuts where it says, and past its end it takes all or nothing. */
  lemma SliceInside<T>(s: seq<T>, i: int)
    requires 0 <= i
    ensures i <= |s| ==> Before(s, i) == s[..i] && From(s, i) == s[i..]
    ensures i >= |s| ==> Before(s, i) == s && From(s, i) == []
  {
  }

  // ----- whole logs -----

  lemma {:induction false} RebaseStaysInRange<T>(base: seq<T>, later: seq<Operation<T>>, position: int)
    requires AllWellFormed(later) && 0 <= position <= |base|
    ensures 0 <= Rebase(later, position) <= |ApplyAll(later, base)|
  {
    if later != [] {
      var front := later[..|later| - 1];
      RebaseStaysInRange(base, front, position);
      RebaseOverStaysInRange(later[|later| - 1], ApplyAll(front, base), Rebase(front, position));
    }
  }

  /**
   * Rebasing preserves intention: an atom of the base text that is still there after the later
   * operations is left of the rebased position exactly when it was left of the original one.
   */
  lemma {:induction false} RebasePreservesIntention<T>(
      base: seq<T>, later: seq<Operation<T>>, position: int, i: nat, j: nat)
    requires Distinct(base) && AllWellFormed(later) && AddsFreshAtoms(later, base)
    requires 0 <= position <= |base|
    requires i < |base| && j < |ApplyAll(later, base)| && base[i] == ApplyAll(later, base)[j]
    ensures i < position <==> j < Rebase(later, position)
  {
    if later != [] {
      var front, op := later[..|later| - 1], later[|later| - 1];
      var mid := ApplyAll(front, base);
      SpliceKeepsOrigin(op, mid, j);
      RebaseStaysInRange(base, front, position);
      RebaseOverKeepsSides(op, mid, Rebase(front, position), j);
      RebasePreservesIntention(base, front, position, i, Origin(op, |mid|, j));
    }
  }

  lemma {:induction false} ApplyAllConcat<T>(first: seq<Operation<T>>, second: seq<Operation<T>>, content: seq<T>)
    ensures ApplyAll(first + second, content) == ApplyAll(second, ApplyAll(first, content))
  {
    if second == [] {
      assert first + second == first;
    } else {
      var all := first + second;
      assert all[..|all| - 1] == first + second[..|second| - 1];
      ApplyAllConcat(first, second[..|second| - 1], content);
    }
  }

  // ----- what a stale edit removes -----

  /** The edit lies inside the text its author saw. */
  ghost predicate InText<T>(edit: Operation<T>, base: seq<T>) {
    edit.WellFormed() && edit.position + edit.Removed() <= |base|
  }

  /** The atoms the author meant to remove. */
  ghost function Meant<T>(edit: Operation<T>, base: seq<T>): seq<T>
    requires InText(edit, base)
  {
    base[edit.position..edit.position + edit.Removed()]
  }

  /** Where the current text still has one of them. */
  ghost function Remaining<T>(base: seq<T>, later: seq<Operation<T>>, edit: Operation<T>): set<int>
    requires InText(edit, base)
  {
    set j | 0 <= j < |ApplyAll(later, base)| && ApplyAll(later, base)[j] in Meant(edit, base)
  }

  /** The rebased edit removes what is left of the atoms its author meant, and nothing else. */
  ghost predicate RemovesExactly<T>(base: seq<T>, later: seq<Operation<T>>, edit: Operation<T>)
    requires InText(edit, base)
  {
    var p := Rebase(later, edit.position);
    forall j :: 0 <= j < |ApplyAll(later, base)| ==>
      (p <= j < p + edit.Removed() <==> ApplyAll(later, base)[j] in Meant(edit, base))
  }

  /**
   * Over one operation a range of a text of `n` atoms is removed as meant exactly when one of these
   * holds: it is empty; or the operation puts something in, but only after the range, or before it
   * and, unless it is an insert, from before it; or it puts nothing in, and takes nothing out of
   * the range or leaves nothing behind it.
   */
  predicate KeepsRange<T(==)>(op: Operation<T>, n: nat, lo: nat, hi: nat) {
    var a, b := op.position, Min(op.position + op.Removed(), n);
    lo == hi ||
    if op.Added() != [] then hi <= a || (b <= lo && (a < lo || op.kind.Insert?))
    else Min(hi, b) <= Max(lo, a) || hi == n || (b == n && a <= hi)
  }

  lemma ApplyOne<T>(base: seq<T>, op: Operation<T>)
    ensures ApplyAll([op], base) == ApplyTextOperation(base, op)
    ensures forall p :: Rebase([op], p) == RebaseOver(op, p)
  {
    assert [op][..0] == [];
    assert ApplyAll([op][..0], base) == base;
  }

  /** Which atom of the spliced text the author meant: one that was not put in and comes from the range. */
  lemma AtomMeant<T>(base: seq<T>, op: Operation<T>, lo: nat, hi: nat, j: nat)
    requires Distinct(base) && op.WellFormed() && AddsFreshAtoms([op], base) && lo <= hi <= |base|
    requires j < |ApplyTextOperation(base, op)|
    ensures
      var from := SliceIndex(|base|, op.position);
      ApplyTextOperation(base, op)[j] in base[lo..hi] <==>
      !(from <= j < from + |op.Added()|) && lo <= Origin(op, |base|, j) < hi
  {
    hide Distinct, ApplyTextOperation, Origin, AddsFreshAtoms;
    var from, after := SliceIndex(|base|, op.position), ApplyTextOperation(base, op);
    SpliceAt(op, base, j);
    if from <= j < from + |op.Added()| {
      NotInBase(op, base, j - from);
      assert forall k :: lo <= k < hi ==> base[lo..hi][k - lo] == base[k] && base[k] in base;
      assert after[j] !in base[lo..hi];
    } else {
      InSlice(base, lo, hi, Origin(op, |base|, j));
    }
  }

  lemma NotInBase<T>(op: Operation<T>, base: seq<T>, k: nat)
    requires AddsFreshAtoms([op], base) && k < |op.Added()|
    ensures op.Added()[k] !in base
  {
    assert [op][0].Added()[k] == op.Added()[k];
    assert op.Added()[k] in op.Added();
  }

  /** Over one operation the atoms that are left are removed and no other, if the operation keeps the range. */
  lemma KeptRangeRemoved<T>(base: seq<T>, op: Operation<T>, lo: nat, hi: nat, j: nat)
    requires op.WellFormed() && lo <= hi <= |base| && KeepsRange(op, |base|, lo, hi)
    requires j < |ApplyTextOperation(base, op)|
    ensures
      var from := SliceIndex(|base|, op.position);
      RebaseOver(op, lo) <= j < RebaseOver(op, lo) + hi - lo <==>
      !(from <= j < from + |op.Added()|) && lo <= Origin(op, |base|, j) < hi
  {
  }

  /** If it does not, the rebased edit removes an atom that was put in, or one from behind the range. */
  lemma BrokenRangeRemoves<T>(base: seq<T>, op: Operation<T>, lo: nat, hi: nat) returns (j: nat)
    requires op.WellFormed() && lo <= hi <= |base| && !KeepsRange(op, |base|, lo, hi)
    ensures RebaseOver(op, lo) <= j < RebaseOver(op, lo) + hi - lo && j < |ApplyTextOperation(base, op)|
    ensures
      var from := SliceIndex(|base|, op.position);
      from <= j < from + |op.Added()| || hi <= Origin(op, |base|, j)
  {
    var a, b, p := op.position, op.position + op.Removed(), RebaseOver(op, lo);
    if op.Added() != [] {
      j := if lo <= a then a else p;
    } else {
      j := p + hi - lo - (Min(hi, b) - Max(lo, a));
    }
  }

  /**
   * Over one later operation of any kind an edit, whose length is not rebased, removes exactly the
   * atoms its author meant that are left if and only if the operation keeps the range.
   */
  lemma StaleRemovalOverOneIff<T>(base: seq<T>, op: Operation<T>, edit: Operation<T>)
    requires Distinct(base) && op.WellFormed() && AddsFreshAtoms([op], base) && InText(edit, base)
    ensures RemovesExactly(base, [op], edit) <==>
            KeepsRange(op, |base|, edit.position, edit.position + edit.Removed())
  {
    hide KeepsRange, Distinct, AddsFreshAtoms, Origin, ApplyAll, ApplyTextOperation, Rebase, RebaseOver;
    var lo, hi := edit.position, edit.position + edit.Removed();
    var current := ApplyTextOperation(base, op);
    ApplyOne(base, op);
    if KeepsRange(op, |base|, lo, hi) {
      forall j | 0 <= j < |current|
        ensures RebaseOver(op, lo) <= j < RebaseOver(op, lo) + hi - lo <==> current[j] in base[lo..hi]
      {
        AtomMeant(base, op, lo, hi, j);
        KeptRangeRemoved(base, op, lo, hi, j);
      }
    } else {
      var j := BrokenRangeRemoves(base, op, lo, hi);
      AtomMeant(base, op, lo, hi, j);
    }
  }

  // ----- what a stale edit removes, over a whole log -----

  /** The end of a range moved over one operation: what is put in at the end stays behind it. */
  function RebaseEndOver<T>(applied: Operation<T>, position: int): int {
    if applied.kind.Insert? && applied.position == position then position else RebaseOver(applied, position)
  }

  function RebaseEnd<T>(later: seq<Operation<T>>, position: int): int {
    if later == [] then position
    else RebaseEndOver(later[|later| - 1], RebaseEnd(later[..|later| - 1], position))
  }

  /** The range of an edit in the current text: from its rebased position up to here. */
  function RangeEnd<T>(later: seq<Operation<T>>, edit: Operation<T>): int {
    Max(Rebase(later, edit.position), RebaseEnd(later, edit.position + edit.Removed()))
  }

  lemma RebaseEndOverKeepsSides<T>(op: Operation<T>, content: seq<T>, position: int, j: nat)
    requires op.WellFormed() && 0 <= position <= |content|
    requires j < |ApplyTextOperation(content, op)|
    requires ApplyTextOperation(content, op)[j] !in op.Added()
    ensures Origin(op, |content|, j) < position <==> j < RebaseEndOver(op, position)
    ensures Origin(op, |content|, j) == position - 1 ==> j == RebaseEndOver(op, position) - 1
  {
    RebaseOverKeepsSides(op, content, position, j);
  }

  lemma {:induction false} RebaseEndStaysInRange<T>(base: seq<T>, later: seq<Operation<T>>, position: int)
    requires AllWellFormed(later) && 0 <= position <= |base|
    ensures 0 <= RebaseEnd(later, position) <= |ApplyAll(later, base)|
  {
    if later != [] {
      var front := later[..|later| - 1];
      RebaseEndStaysInRange(base, front, position);
      RebaseOverStaysInRange(later[|later| - 1], ApplyAll(front, base), RebaseEnd(front, position));
    }
  }

  /**
   * The rebased end keeps its side of every atom of the base text, and stays right behind the last
   * atom of the range as long as that one is there.
   */
  lemma {:induction false} EndKeepsSides<T>(base: seq<T>, later: seq<Operation<T>>, position: int, i: nat, j: nat)
    requires Distinct(base) && AllWellFormed(later) && AddsFreshAtoms(later, base)
    requires 0 <= position <= |base|
    requires i < |base| && j < |ApplyAll(later, base)| && base[i] == ApplyAll(later, base)[j]
    ensures i < position <==> j < RebaseEnd(later, position)
    ensures i == position - 1 ==> j == RebaseEnd(later, position) - 1
  {
    if later != [] {
      var front, op := later[..|later| - 1], later[|later| - 1];
      var mid := ApplyAll(front, base);
      SpliceKeepsOrigin(op, mid, j);
      RebaseEndStaysInRange(base, front, position);
      RebaseEndOverKeepsSides(op, mid, RebaseEnd(front, position), j);
      EndKeepsSides(base, front, position, i, Origin(op, |mid|, j));
    }
  }

  /** An atom of the base text is in the current one at most once. */
  lemma {:induction false} OccursOnce<T>(base: seq<T>, later: seq<Operation<T>>, i: nat, j: nat, k: nat)
    requires Distinct(base) && AllWellFormed(later) && AddsFreshAtoms(later, base)
    requires i < |base| && j < |ApplyAll(later, base)| && k < |ApplyAll(later, base)|
    requires base[i] == ApplyAll(later, base)[j] == ApplyAll(later, base)[k]
    ensures j == k
  {
    if later != [] {
      var front, op := later[..|later| - 1], later[|later| - 1];
      var mid := ApplyAll(front, base);
      SpliceKeepsOrigin(op, mid, j);
      SpliceKeepsOrigin(op, mid, k);
      OccursOnce(base, front, i, Origin(op, |mid|, j), Origin(op, |mid|, k));
    }
  }

  /** What is left of the range lies between its rebased ends. */
  lemma RemainingInRange<T>(base: seq<T>, later: seq<Operation<T>>, edit: Operation<T>, j: int)
    requires Distinct(base) && AllWellFormed(later) && AddsFreshAtoms(later, base) && InText(edit, base)
    requires j in Remaining(base, later, edit)
    ensures Rebase(later, edit.position) <= j < RangeEnd(later, edit)
  {
    hide Distinct, AllWellFormed, AddsFreshAtoms, ApplyAll, Rebase, RebaseEnd;
    var lo, hi := edit.position, edit.position + edit.Removed();
    var k :| 0 <= k < hi - lo && base[lo..hi][k] == ApplyAll(later, base)[j];
    assert base[lo + k] == ApplyAll(later, base)[j];
    RebasePreservesIntention(base, later, lo, lo + k, j);
    EndKeepsSides(base, later, hi, lo + k, j);
  }

  /** What is left fills its range, and none of it is missing or nothing stands behind it. */
  ghost predicate RangeWhole<T>(base: seq<T>, later: seq<Operation<T>>, edit: Operation<T>)
    requires InText(edit, base)
  {
    var left := |Remaining(base, later, edit)|;
    && RangeEnd(later, edit) - Rebase(later, edit.position) == left
    && (left == edit.Removed() || RangeEnd(later, edit) == |ApplyAll(later, base)|)
  }

  /** A stretch of the current text that holds nothing but atoms of the base text repeats none. */
  lemma StretchDistinct<T>(base: seq<T>, later: seq<Operation<T>>, p: nat, n: nat)
    requires Distinct(base) && AllWellFormed(later) && AddsFreshAtoms(later, base)
    requires p + n <= |ApplyAll(later, base)| && forall j :: p <= j < p + n ==> ApplyAll(later, base)[j] in base
    ensures Distinct(ApplyAll(later, base)[p..p + n])
  {
    hide ApplyAll, AllWellFormed, AddsFreshAtoms;
    var current := ApplyAll(later, base);
    var stretch := current[p..p + n];
    forall j, k | 0 <= j < k < n ensures stretch[j] != stretch[k] {
      assert stretch[j] == current[p + j] && stretch[k] == current[p + k];
      var i :| 0 <= i < |base| && base[i] == current[p + j];
      if stretch[j] == stretch[k] {
        OccursOnce(base, later, i, p + j, p + k);
      }
    }
  }

  /** When as many atoms are removed as were meant, each of those meant is among them. */
  lemma MeantIsRemoved<T>(base: seq<T>, later: seq<Operation<T>>, edit: Operation<T>, i: nat) returns (j: nat)
    requires Distinct(base) && AllWellFormed(later) && AddsFreshAtoms(later, base) && InText(edit, base)
    requires RemovesExactly(base, later, edit) && i < edit.Removed()
    requires 0 <= Rebase(later, edit.position) && Rebase(later, edit.position) + edit.Removed() <= |ApplyAll(later, base)|
    ensures Rebase(later, edit.position) <= j < |ApplyAll(later, base)|
    ensures ApplyAll(later, base)[j] == Meant(edit, base)[i]
  {
    hide Distinct, AllWellFormed, AddsFreshAtoms, ApplyAll, Rebase;
    var n, p, current := edit.Removed(), Rebase(later, edit.position), ApplyAll(later, base);
    var meant, removed := Meant(edit, base), current[p..p + n];
    forall j | p <= j < p + n ensures current[j] in meant && current[j] in base {
      assert current[j] in meant;
      MeantInBase(base, edit, current[j]);
    }
    StretchDistinct(base, later, p, n);
    SliceDistinct(base, edit.position, edit.position + n);
    assert forall k :: 0 <= k < n ==> removed[k] == current[p + k];
    FillsAll(removed, meant);
    var k :| 0 <= k < n && removed[k] == meant[i];
    j := p + k;
  }

  /** The range then still ends behind its last atom. */
  lemma WholeRangeEnds<T>(base: seq<T>, later: seq<Operation<T>>, edit: Operation<T>)
    requires Distinct(base) && AllWellFormed(later) && AddsFreshAtoms(later, base) && InText(edit, base)
    requires RemovesExactly(base, later, edit) && 0 < edit.Removed()
    requires 0 <= Rebase(later, edit.position) && Rebase(later, edit.position) + edit.Removed() <= |ApplyAll(later, base)|
    ensures RangeEnd(later, edit) == Rebase(later, edit.position) + edit.Removed()
  {
    hide Distinct, AllWellFormed, AddsFreshAtoms, ApplyAll, Rebase, RebaseEnd, Meant;
    var n, p, last := edit.Removed(), Rebase(later, edit.position), edit.position + edit.Removed() - 1;
    var j := MeantIsRemoved(base, later, edit, n - 1);
    LastOfMeant(base, edit);
    EndKeepsSides(base, later, last + 1, last, j);
    RemainingIffMeant(base, later, edit);
    RemainingInRange(base, later, edit, p + n - 1);
  }

  lemma LastOfMeant<T>(base: seq<T>, edit: Operation<T>)
    requires InText(edit, base) && 0 < edit.Removed()
    ensures |Meant(edit, base)| == edit.Removed()
    ensures Meant(edit, base)[edit.Removed() - 1] == base[edit.position + edit.Removed() - 1]
    ensures Meant(edit, base)[edit.Removed() - 1] in Meant(edit, base)
  {
  }

  lemma MeantInBase<T>(base: seq<T>, edit: Operation<T>, a: T)
    requires InText(edit, base) && a in Meant(edit, base)
    ensures a in base
  {
  }

  /**
   * Over a whole log an edit removes exactly what its author meant and is left if and only if what is
   * left fills the range between the rebased ends, and either nothing of it is missing or nothing
   * stands behind it.
   */
  lemma StaleRemovalIff<T>(base: seq<T>, later: seq<Operation<T>>, edit: Operation<T>)
    requires Distinct(base) && AllWellFormed(later) && AddsFreshAtoms(later, base) && InText(edit, base)
    ensures RemovesExactly(base, later, edit) <==> RangeWhole(base, later, edit)
  {
    hide Distinct, AllWellFormed, AddsFreshAtoms, ApplyAll, Rebase, RebaseEnd, Remaining, Meant;
    var current, p, e := ApplyAll(later, base), Rebase(later, edit.position), RangeEnd(later, edit);
    var left, n := Remaining(base, later, edit), edit.Removed();
    RangeInText(base, later, edit);
    RemainingIffMeant(base, later, edit);
    forall j | j in left ensures p <= j < e {
      RemainingInRange(base, later, edit, j);
    }
    if RangeWhole(base, later, edit) {
      FillsInterval(left, p, e);
      NotMoreThanMeant(base, later, edit, p, e - p);
    }
    if RemovesExactly(base, later, edit) {
      var last := Min(p + n, |current|);
      IntervalSize(left, p, last);
      if n == 0 {
        EndAtMost(later, edit.position);
      } else if last == p + n {
        WholeRangeEnds(base, later, edit);
      } else {
        assert last > p ==> last - 1 in left;
      }
    }
  }

  lemma NotMoreThanMeant<T>(base: seq<T>, later: seq<Operation<T>>, edit: Operation<T>, p: nat, n: nat)
    requires Distinct(base) && AllWellFormed(later) && AddsFreshAtoms(later, base) && InText(edit, base)
    requires p + n <= |ApplyAll(later, base)|
    requires forall j :: p <= j < p + n ==> ApplyAll(later, base)[j] in Meant(edit, base)
    ensures n <= edit.Removed()
  {
    hide ApplyAll, AllWellFormed, AddsFreshAtoms;
    var current := ApplyAll(later, base);
    forall j | p <= j < p + n ensures current[j] in base {
      MeantInBase(base, edit, current[j]);
    }
    StretchDistinct(base, later, p, n);
    var stretch := current[p..p + n];
    assert forall k :: 0 <= k < n ==> stretch[k] == current[p + k];
    NoLonger(stretch, Meant(edit, base));
  }

  /** The end of an empty range is never behind its start. */
  lemma {:induction false} EndAtMost<T>(later: seq<Operation<T>>, position: int)
    ensures RebaseEnd(later, position) <= Rebase(later, position)
  {
    if later != [] {
      EndAtMost(later[..|later| - 1], position);
    }
  }

  lemma RemainingIffMeant<T>(base: seq<T>, later: seq<Operation<T>>, edit: Operation<T>)
    requires InText(edit, base)
    ensures forall j :: j in Remaining(base, later, edit) <==>
              0 <= j < |ApplyAll(later, base)| && ApplyAll(later, base)[j] in Meant(edit, base)
  {
  }

  lemma RangeInText<T>(base: seq<T>, later: seq<Operation<T>>, edit: Operation<T>)
    requires AllWellFormed(later) && InText(edit, base)
    ensures 0 <= Rebase(later, edit.position) <= RangeEnd(later, edit) <= |ApplyAll(later, base)|
  {
    hide ApplyAll, Rebase, RebaseEnd, AllWellFormed;
    RebaseStaysInRange(base, later, edit.position);
    RebaseEndStaysInRange(base, later, edit.position + edit.Removed());
  }

  /** Two users delete the same two atoms: the second deletion takes the next two with it. */
  lemma DoubleDeleteRemovesMore(base: seq<int>, edit: Operation<int>)
    requires base == [0, 1, 2, 3, 4, 5]
    requires edit.kind.Delete? && edit.position == 1 && edit.length == Some(2)
    ensures Meant(edit, base) == [1, 2] && ApplyAll([edit], base) == [0, 3, 4, 5]
    ensures !RemovesExactly(base, [edit], edit)
    ensures ApplyTextOperation(ApplyAll([edit], base), edit.(position := Rebase([edit], edit.position))) == [0, 5]
  {
    ApplyOne(base, edit);
    var current := ApplyAll([edit], base);
    assert current[1] == 3;
  }
}
