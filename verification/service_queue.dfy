/** The customer-service queue: submitServiceRequest pushes at the back,
    manageServiceQueue processes the front or lists every pending request. */
module ServiceQueue {
  import opened Outcome

  datatype Category = TechnicalIssue | AccountQuery | LoanInformation | Other

  /** The service-type menu; choices other than 1-3 fall to Other. */
  function CategoryFor(choice: int): (c: Category)
    ensures choice == 1 <==> c == TechnicalIssue
    ensures choice == 2 <==> c == AccountQuery
    ensures choice == 3 <==> c == LoanInformation
  {
    if choice == 1 then TechnicalIssue
    else if choice == 2 then AccountQuery
    else if choice == 3 then LoanInformation
    else Other
  }

  /** One pending request: the fields the source formats into its queued string. */
  datatype Request = Request(timestamp: string, account: string, name: string, category: Category, description: string)

  type Queue = seq<Request>

  /** serviceQueue.push, and the position reported to the customer. */
  function Enqueue(q: Queue, r: Request): (res: (Queue, nat))
    ensures |res.0| == |q| + 1 && res.1 == |res.0|
    ensures res.0[..|q|] == q && res.0[|q|] == r
  {
    var q' := q + [r];
    (q', |q'|)
  }

  /** Processing: the front request leaves the queue; an empty queue has nothing to process. */
  function Dequeue(q: Queue): (r: Result<(Request, Queue)>)
    ensures r.Err? <==> |q| == 0
    ensures r.Err? ==> r.error == EmptyQueue
    ensures r.Ok? ==> [r.value.0] + r.value.1 == q
  {
    if |q| == 0 then Err(EmptyQueue) else Ok((q[0], q[1..]))
  }

  /** "View all": pop a copy of the queue, numbering from 1, front to back. */
  method ListAll(q: Queue) returns (listing: seq<(nat, Request)>)
    ensures |listing| == |q|
    ensures forall i | 0 <= i < |q| :: listing[i] == (i + 1, q[i])
  {
    var temp := q;
    var count := 1;
    listing := [];
    while |temp| > 0
      invariant |listing| + |temp| == |q|
      invariant count == |listing| + 1
      invariant temp == q[|listing|..]
      invariant forall i | 0 <= i < |listing| :: listing[i] == (i + 1, q[i])
    {
      listing := listing + [(count, temp[0])];
      temp := temp[1..];
      count := count + 1;
    }
  }

  /** Every request in processing order: process until the queue is empty. */
  function Drain(q: Queue): seq<Request>
    decreases |q|
  {
    match Dequeue(q)
    case Err(_) => []
    case Ok((front, rest)) => [front] + Drain(rest)
  }

  /** Submit each request in turn. */
  function EnqueueAll(q: Queue, rs: seq<Request>): Queue
    decreases |rs|
  {
    if |rs| == 0 then q else EnqueueAll(Enqueue(q, rs[0]).0, rs[1..])
  }

  lemma {:induction false} DrainInOrder(q: Queue)
    ensures Drain(q) == q
    decreases |q|
  {
    if |q| > 0 {
      DrainInOrder(q[1..]);
      assert q == [q[0]] + q[1..];
    }
  }

  lemma {:induction false} EnqueueAllAppends(q: Queue, rs: seq<Request>)
    ensures EnqueueAll(q, rs) == q + rs
    decreases |rs|
  {
    if |rs| > 0 {
      EnqueueAllAppends(q + [rs[0]], rs[1..]);
      assert q + [rs[0]] + rs[1..] == q + rs;
    }
  }

  /** FIFO: requests are processed in the order they were submitted, after
      those already waiting. */
  lemma Fifo(q: Queue, rs: seq<Request>)
    ensures Drain(EnqueueAll(q, rs)) == q + rs
  {
    EnqueueAllAppends(q, rs);
    DrainInOrder(q + rs);
  }
}
