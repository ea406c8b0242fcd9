/** The ordering of the executor's waiting queue. The queue holds runnables;
    print jobs are compared with a pluggable job comparator, and any other
    runnable is ordered against a print job by kind alone. The queue is a
    priority queue that hands out a least element first. */
module JobQueue {
  import opened Status
  import opened Results

  /** A waiting runnable: a print job, or some other task identified by a number. */
  datatype Item = Job(job: PrintJob) | Other(task: nat)

  /** The job comparator installed when none is configured: all jobs are equal. */
  function DefaultJobPriority(a: PrintJob, b: PrintJob): int {
    0
  }

  /** The queue comparator: a job is greater than a non-job, two non-jobs are
      equal, and two jobs are ordered by the job comparator. */
  function Compare(jobCmp: (PrintJob, PrintJob) -> int, a: Item, b: Item): int {
    if a.Job? then
      if b.Job? then jobCmp(a.job, b.job) else 1
    else if b.Job? then -1
    else 0
  }

  function Sign(x: int): int {
    if x > 0 then 1 else if x < 0 then -1 else 0
  }

  /** The rank of an item's kind: non-jobs below jobs. */
  function Rank(a: Item): int {
    if a.Job? then 1 else 0
  }

  /** Sign antisymmetry of a comparator, as `java.util.Comparator` demands. */
  ghost predicate Antisymmetric<T(!new)>(cmp: (T, T) -> int) {
    forall x, y :: Sign(cmp(x, y)) == -Sign(cmp(y, x))
  }

  /** The full `java.util.Comparator` contract: antisymmetric, transitive, and
      equal elements compare alike against everything. */
  ghost predicate IsComparator<T(!new)>(cmp: (T, T) -> int) {
    && Antisymmetric(cmp)
    && (forall x, y, z :: cmp(x, y) > 0 && cmp(y, z) > 0 ==> cmp(x, z) > 0)
    && (forall x, y, z :: cmp(x, y) == 0 ==> Sign(cmp(x, z)) == Sign(cmp(y, z)))
  }

  /** Items of different kinds are ordered by kind, whatever the job comparator. */
  lemma CompareByKind(jobCmp: (PrintJob, PrintJob) -> int, a: Item, b: Item)
    requires a.Job? != b.Job?
    ensures Compare(jobCmp, a, b) == Rank(a) - Rank(b)
  {
  }

  /** The queue comparator is antisymmetric whenever the job comparator is. */
  lemma CompareAntisymmetric(jobCmp: (PrintJob, PrintJob) -> int, a: Item, b: Item)
    requires Antisymmetric(jobCmp)
    ensures Sign(Compare(jobCmp, a, b)) == -Sign(Compare(jobCmp, b, a))
  {
  }

  /** With the default job comparator the queue orders by kind only. */
  lemma DefaultCompareIsRankOrder(a: Item, b: Item)
    ensures Compare(DefaultJobPriority, a, b) == if a.Job? && b.Job? then 0 else Rank(a) - Rank(b)
  {
  }

  /** The default job comparator honours the comparator contract. */
  lemma DefaultJobPriorityIsComparator()
    ensures IsComparator(DefaultJobPriority)
  {
  }

  /** A strict step followed by a non-strict one is strict. */
  lemma LessThenAtMost(jobCmp: (PrintJob, PrintJob) -> int, x: Item, y: Item, z: Item)
    requires IsComparator(jobCmp)
    requires Compare(jobCmp, x, y) < 0 && Compare(jobCmp, y, z) <= 0
    ensures Compare(jobCmp, x, z) < 0
  {
  }

  /** The queue comparator honours the comparator contract whenever the job
      comparator does, so a priority queue built on it is well defined. */
  lemma CompareIsComparator(jobCmp: (PrintJob, PrintJob) -> int)
    requires IsComparator(jobCmp)
    ensures IsComparator((a: Item, b: Item) => Compare(jobCmp, a, b))
  {
  }

  /** The position of the item the priority queue hands out next: one that no
      other waiting item is less than. None when nothing waits. */
  method SelectNext(jobCmp: (PrintJob, PrintJob) -> int, items: seq<Item>) returns (k: Option<nat>)
    requires IsComparator(jobCmp)
    ensures k.Some? <==> |items| > 0
    ensures k.Some? ==> k.value < |items|
    ensures k.Some? ==> forall j :: 0 <= j < |items| ==> Compare(jobCmp, items[k.value], items[j]) <= 0
    ensures k.Some? && (exists j :: 0 <= j < |items| && items[j].Other?) ==> items[k.value].Other?
  {
    if |items| == 0 {
      return None;
    }
    var best := 0;
    var i := 1;
    CompareAntisymmetric(jobCmp, items[0], items[0]);
    while i < |items|
      invariant 1 <= i <= |items|
      invariant best < i
      invariant forall j :: 0 <= j < i ==> Compare(jobCmp, items[best], items[j]) <= 0
    {
      CompareAntisymmetric(jobCmp, items[i], items[best]);
      if Compare(jobCmp, items[i], items[best]) < 0 {
        forall j | 0 <= j < i
          ensures Compare(jobCmp, items[i], items[j]) <= 0
        {
          LessThenAtMost(jobCmp, items[i], items[best], items[j]);
        }
        best := i;
      }
      i := i + 1;
    }
    k := Some(best);
  }
}
