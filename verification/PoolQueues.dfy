/** The queues of the two thread pools, as they are updated while the lock is held. */
module PoolQueues {

  /** The ring of the stopping pool. */
  class TaskRing<T(0)> {
    const queue: array<T>
    var head: nat
    var tail: nat
    var count: nat

    ghost predicate Valid()
      reads this
    {
      && 0 < queue.Length && head < queue.Length && count <= queue.Length
      && tail == Wrap(head + count)
    }

    function Wrap(i: nat): (j: nat)
      requires 0 < queue.Length && i < 2 * queue.Length
      ensures j < queue.Length && j == i % queue.Length
    {
      assert (i - queue.Length) % queue.Length == i % queue.Length;
      if i < queue.Length then i else i - queue.Length
    }

    /** The waiting tasks, oldest first. */
    ghost function Contents(): (s: seq<T>)
      requires Valid()
      reads this, queue
      ensures |s| == count && forall i | 0 <= i < count :: s[i] == queue[Wrap(head + i)]
    {
      seq(count, i requires 0 <= i < count reads this, queue requires Valid() => queue[Wrap(head + i)])
    }

    constructor (queueSize: nat)
      requires queueSize > 0
      ensures Valid() && Contents() == [] && queue.Length == queueSize && fresh(queue)
    {
      queue := new T[queueSize];
      head, tail, count := 0, 0, 0;
    }

    /** The critical section of threadpool_add. */
    method Add(task: T, shutdown: bool) returns (err: int)
      requires Valid()
      modifies this, queue
      ensures Valid()
      ensures if |old(Contents())| == queue.Length || shutdown then err == -1 && Contents() == old(Contents())
              else err == 0 && Contents() == old(Contents()) + [task]
    {
      if count == queue.Length {
        return -1;
      } else if shutdown {
        return -1;
      }
      ghost var before := Contents();
      queue[tail] := task;
      assert tail + 1 < 2 * queue.Length && Wrap(tail + 1) == (tail + 1) % queue.Length;
      tail := (tail + 1) % queue.Length;
      count := count + 1;
      assert Valid() && Contents() == before + [task];
      return 0;
    }

    /** What a worker does once there is a task. */
    method Take() returns (task: T)
      requires Valid() && Contents() != []
      modifies this
      ensures Valid()
      ensures old(Contents()) == [task] + Contents()
    {
      ghost var before := Contents();
      task := queue[head];
      assert Wrap(head + 1) == (head + 1) % queue.Length;
      head := (head + 1) % queue.Length;
      count := count - 1;
      assert before == [task] + Contents();
    }
  }

  class TaskNode<T> {
    const task: T
    var next: TaskNode?<T>

    constructor (task: T)
      ensures this.task == task && next == null
    {
      this.task := task;
      next := null;
    }
  }

  /** The linked queue of the draining pool. */
  class TaskList<T> {
    var queueHead: TaskNode?<T>
    var queueTail: TaskNode?<T>
    var queueSize: int
    ghost var nodes: seq<TaskNode<T>>

    ghost predicate Valid()
      reads this, nodes
    {
      && queueSize == |nodes|
      && (forall i, j | 0 <= i < j < |nodes| :: nodes[i] != nodes[j])
      && (nodes != [] ==> queueHead == nodes[0] && queueTail == nodes[|nodes| - 1])
      && (forall i | 0 <= i < |nodes| - 1 :: nodes[i].next == nodes[i + 1])
    }

    ghost function Contents(): (s: seq<T>)
      requires Valid()
      reads this, nodes
      ensures |s| == |nodes|
    {
      seq(|nodes|, i requires 0 <= i < |nodes| reads this => nodes[i].task)
    }

    constructor ()
      ensures Valid() && Contents() == []
    {
      queueHead, queueTail, queueSize, nodes := null, null, 0, [];
    }

    /** The critical section of thread_pool_add_task. */
    method Add(task: T)
      requires Valid()
      modifies this, nodes
      ensures Valid() && Contents() == old(Contents()) + [task]
      ensures forall n <- nodes :: n in old(nodes) || fresh(n)
    {
      var node := new TaskNode(task);
      if queueSize == 0 {
        queueHead := node;
        queueTail := node;
      } else {
        queueTail.next := node;
        queueTail := node;
      }
      queueSize := queueSize + 1;
      nodes := nodes + [node];
    }

    /** What a worker does once there is a task. */
    method Take() returns (task: T)
      requires Valid() && Contents() != []
      modifies this
      ensures Valid() && old(Contents()) == [task] + Contents()
      ensures nodes == old(nodes)[1..]
    {
      var node := queueHead;
      queueSize := queueSize - 1;
      if queueSize == 0 {
        queueHead := null;
        queueTail := null;
      } else {
        queueHead := node.next;
      }
      nodes := nodes[1..];
      return node.task;
    }
  }
}
