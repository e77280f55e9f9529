/**
 * The job manager's critical sections as written (im2d_api/src/im2d_impl.cpp): the global
 * map, its counter and the job blocks changed in place. Each method has the effect that the
 * machine in Jobs takes as one step.
 */
module JobTable {
  import opened Common
  import opened Jobs

  class Table {
    var jobMap: map<Handle, BlockId>
    var jobCount: int
    var heap: map<BlockId, Block>
    var next: BlockId

    ghost function View(): Manager
      reads this
    {
      Manager(jobMap, jobCount, heap, next, false)
    }

    constructor ()
      ensures View() == Initial.m
    {
      jobMap, jobCount, heap, next := map[], 0, map[], 0;
    }

    /** rga_job_create under the mutex; false sends the caller to rga_job_cancel. */
    method CreateJob(h: Handle, granted: bool) returns (made: bool)
      requires MapOk(View())
      modifies this
      ensures View() == Create(old(View()), h, granted)
      ensures made == Creates(old(View()), h, granted)
      ensures made <==> h !in old(jobMap) && granted
      ensures made ==>
                && jobMap.Keys == old(jobMap).Keys + {h} && jobMap[h] !in old(heap)
                && heap[jobMap[h]].taskCount == 0 && heap[jobMap[h]].id == h
      ensures !made ==> jobMap == old(jobMap) && heap == old(heap)
      ensures MapOk(View())
    {
      if h in jobMap {
        return false;
      }
      if !granted {
        return false;
      }
      var job := next;
      next := next + 1;
      heap := heap[job := Block(seq(TASK_NUM_MAX, _ => 0), 0, h)];
      jobMap := jobMap[h := job];
      jobCount := jobCount + 1;
      made := true;
    }

    /** The append of rga_task_submit: refused for an unknown handle and for a full job. */
    method AppendTask(h: Handle, r: Request) returns (status: int)
      requires MapOk(View())
      requires forall b | b in heap :: |heap[b].req| == TASK_NUM_MAX && heap[b].taskCount >= 0
      modifies this`heap
      ensures View() == Append(old(View()), h, r)
      ensures status == if Appends(old(View()), h) then SUCCESS else ILLEGAL_PARAM
      ensures status == SUCCESS <==> h in old(jobMap) && old(heap)[old(jobMap)[h]].taskCount < 256
      ensures status == SUCCESS ==>
                var b, n := jobMap[h], old(heap)[jobMap[h]].taskCount;
                heap == old(heap)[b := old(heap)[b].(req := old(heap)[b].req[n := r], taskCount := n + 1)]
      ensures status != SUCCESS ==> status == ILLEGAL_PARAM && heap == old(heap)
      ensures MapOk(View())
    {
      if h !in jobMap {
        return ILLEGAL_PARAM;
      }
      var job := heap[jobMap[h]];
      if job.taskCount >= TASK_NUM_MAX {
        return ILLEGAL_PARAM;
      }
      job := job.(req := job.req[job.taskCount := r]);
      job := job.(taskCount := job.taskCount + 1);
      heap := heap[jobMap[h] := job];
      status := SUCCESS;
    }

    /** The removal shared by rga_job_submit and rga_job_cancel. */
    method TakeJob(h: Handle) returns (job: Option<BlockId>)
      requires MapOk(View())
      modifies this`jobMap, this`jobCount
      ensures View() == Remove(old(View()), h)
      ensures jobMap == old(jobMap) - {h} && jobCount == old(jobCount) - (if h in old(jobMap) then 1 else 0)
      ensures job == if h in old(jobMap) then Some(old(jobMap)[h]) else None
      ensures job.Some? ==> job.value in heap && !InMap(View(), job.value)
      ensures MapOk(View())
    {
      if h !in jobMap {
        return None;
      }
      job := Some(jobMap[h]);
      jobMap := jobMap - {h};
      jobCount := jobCount - 1;
    }

    /** rga_job_cancel: count and free only a job that was really there. */
    method CancelJob(h: Handle)
      requires MapOk(View())
      modifies this
      ensures View() == Cancel(old(View()), h)
      ensures jobMap == old(jobMap) - {h}
      ensures heap == if h in old(jobMap) then old(heap) - {old(jobMap)[h]} else old(heap)
      ensures jobCount == old(jobCount) - (if h in old(jobMap) then 1 else 0)
      ensures MapOk(View())
    {
      var job := TakeJob(h);
      if job.Some? {
        heap := heap - {job.value};
      }
    }

    /** The request rga_job_config and rga_job_submit hand to the driver. */
    method Request(b: BlockId) returns (d: Delivery)
      requires b in heap && |heap[b].req| == TASK_NUM_MAX && 0 <= heap[b].taskCount <= TASK_NUM_MAX
      ensures d == Deliver(View(), b)
      ensures 0 <= d.num <= 256 && |d.tasks| == d.num && d.tasks <= heap[b].req
      ensures d.b == b && d.num == heap[b].taskCount && d.id == heap[b].id
    {
      var job := heap[b];
      d := Delivery(b, job.req[..job.taskCount], job.taskCount, job.id);
    }
  }
}
