/** The VCOS mutex of vcos_threads.c under any interleaving of threads. A
    section with interrupts off is one step, a yield is a scheduling point. */
module VcosMutex {

  /** The scheduler's handle of a thread (RT_ReadInfo). */
  type Thread = nat

  /** pollword is 1 when free and 0 when claimed; the handle is left behind on release. */
  datatype Mutex = Mutex(pollword: nat, rtHandle: Thread)

  /** mutex_init sets only the poll word. */
  function InitMutex(m: Mutex): Mutex {
    m.(pollword := 1)
  }

  /** The loop of mutex_lock goes on yielding while this is false. */
  predicate MayEnter(m: Mutex, t: Thread) {
    m.pollword != 0 || m.rtHandle == t
  }

  /** The end of mutex_lock, in the same interrupts-off section as the last test. */
  function Claimed(t: Thread): Mutex {
    Mutex(0, t)
  }

  /** mutex_unlock. */
  function Released(m: Mutex): Mutex {
    m.(pollword := 1)
  }

  /** The mutex words agree with who is between lock and unlock. */
  ghost predicate Guards(m: Mutex, inside: set<Thread>) {
    && (m.pollword == 0 <==> inside != {})
    && forall t :: t in inside ==> m.rtHandle == t
  }

  lemma AtMostOne(m: Mutex, inside: set<Thread>, a: Thread, b: Thread)
    requires Guards(m, inside) && a in inside && b in inside
    ensures a == b && m == Claimed(a)
  {
  }

  /** A thread gets in exactly when nobody is, provided it is not in already. */
  lemma Entering(m: Mutex, inside: set<Thread>, t: Thread)
    requires Guards(m, inside) && t !in inside
    ensures MayEnter(m, t) <==> inside == {}
    ensures Guards(Claimed(t), {t})
  {
    if inside != {} {
      var h :| h in inside;
      assert m.rtHandle == h != t;
    }
  }

  lemma Leaving(m: Mutex, inside: set<Thread>, t: Thread)
    requires Guards(m, inside) && t in inside
    ensures inside - {t} == {} && Guards(Released(m), inside - {t})
  {
    forall u | u in inside ensures u == t {}
  }
}
