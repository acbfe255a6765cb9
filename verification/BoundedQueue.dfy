/** The bounded blocking queue itself; each method runs from getting the lock to releasing it. */
module BoundedQueue {
  import opened QueueProtocol
  import opened Sets

  /** What a thread does when it releases the lock: it is through, or it waits. */
  datatype Outcome<T> = Through(item: T) | Waits

  class BoundedBlockingQueue<T(0)> {
    const maxSize: nat
    var queue: seq<T>
    var notEmpty: set<Thread>
    var woken: set<Thread>
    var notFull: map<Thread, T>
    var wokenPutters: map<Thread, T>
    ghost var put: seq<T>
    ghost var taken: seq<T>

    ghost function Abstract(): State<T>
      reads this
    {
      State(maxSize, queue, notEmpty, woken, notFull, wokenPutters, put, taken)
    }

    constructor (maxSize: nat)
      ensures Abstract() == Started(maxSize) && Inv(Abstract())
    {
      this.maxSize := maxSize;
      queue, notEmpty, woken, notFull, wokenPutters := [], {}, {}, map[], map[];
      put, taken := [], [];
    }

    /** Wakes one of the waiting takers. */
    method NotifyTaker()
      modifies this`notEmpty, this`woken
      ensures TakerSignalled(old(Abstract()), Abstract())
    {
      if notEmpty != {} {
        ghost var some := SomeMember(notEmpty);
        var w :| w in notEmpty;
        notEmpty, woken := notEmpty - {w}, woken + {w};
      }
    }

    method NotifyPutter()
      modifies this`notFull, this`wokenPutters
      ensures PutterSignalled(old(Abstract()), Abstract())
    {
      if notFull != map[] {
        var waiting := notFull.Keys;
        ghost var some := SomeMember(waiting);
        var w :| w in waiting;
        notFull, wokenPutters := notFull - {w}, wokenPutters[w := notFull[w]];
      }
    }

    method Put(t: Thread, x: T) returns (out: Outcome<T>)
      requires Inside(Abstract(), t) && NoneLostBut(Abstract(), 0, 1)
      modifies this
      ensures PutStep(old(Abstract()), Abstract(), t, x) && Inv(Abstract())
      ensures out == if |old(queue)| >= maxSize then Waits else Through(x)
      ensures if out.Waits? then
                queue == old(queue) && put == old(put) && taken == old(taken) && notFull == old(notFull)[t := x]
              else queue == old(queue) + [x] && put == old(put) + [x] && taken == old(taken)
    {
      hide Inside, NoneLostBut, Inv;
      if |queue| >= maxSize {
        notFull := notFull[t := x];
        out := Waits;
      } else {
        queue := queue + [x];
        put := put + [x];
        NotifyTaker();
        out := Through(x);
      }
      PutInv(old(Abstract()), Abstract(), t, x);
    }

    method Take(t: Thread) returns (out: Outcome<T>)
      requires Inside(Abstract(), t) && NoneLostBut(Abstract(), 1, 0)
      modifies this
      ensures TakeStep(old(Abstract()), Abstract(), t) && Inv(Abstract())
      ensures out == if old(queue) == [] then Waits else Through(old(queue)[0])
      ensures if out.Waits? then queue == old(queue) && put == old(put) && taken == old(taken) && t in notEmpty
              else old(queue) == [out.item] + queue && taken == old(taken) + [out.item] && put == old(put)
    {
      hide Inside, NoneLostBut, Inv;
      if queue == [] {
        notEmpty := notEmpty + {t};
        out := Waits;
      } else {
        var front := queue[0];
        queue := queue[1..];
        taken := taken + [front];
        NotifyPutter();
        out := Through(front);
      }
      TakeInv(old(Abstract()), Abstract(), t);
    }

    /** The loop in `put` goes round once more after its wait. */
    method PutAgain(t: Thread) returns (out: Outcome<T>)
      requires Inv(Abstract()) && t in wokenPutters
      modifies this
      ensures Resume(old(Abstract()), Abstract()) && Inv(Abstract())
      ensures out == if |old(queue)| >= maxSize then Waits else Through(old(wokenPutters)[t])
      ensures if out.Waits? then
                && queue == old(queue) && put == old(put) && taken == old(taken)
                && notFull == old(notFull)[t := old(wokenPutters)[t]]
              else queue == old(queue) + [out.item] && put == old(put) + [out.item] && taken == old(taken)
    {
      hide Inside, NoneLostBut, Inv;
      PutterBack(Abstract(), t);
      var x := wokenPutters[t];
      wokenPutters := wokenPutters - {t};
      out := Put(t, x);
    }

    /** The loop in `take` goes round once more after its wait. */
    method TakeAgain(t: Thread) returns (out: Outcome<T>)
      requires Inv(Abstract()) && t in woken
      modifies this
      ensures Resume(old(Abstract()), Abstract()) && Inv(Abstract())
      ensures out == if old(queue) == [] then Waits else Through(old(queue)[0])
      ensures if out.Waits? then queue == old(queue) && put == old(put) && taken == old(taken) && t in notEmpty
              else old(queue) == [out.item] + queue && taken == old(taken) + [out.item] && put == old(put)
    {
      hide Inside, NoneLostBut, Inv;
      TakerBack(Abstract(), t);
      woken := woken - {t};
      out := Take(t);
    }
  }
}
