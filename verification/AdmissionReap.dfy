/** What a reap keeps, told by membership, expiry and order alone. */
module AdmissionReap {
  import opened Ordering
  import opened Queues
  import opened Admission

  /** `t` holds elements of `s`, in the order of `s`. */
  ghost predicate OrderKept<T(!new)>(s: seq<T>, t: seq<T>) {
    && (forall x :: x in t ==> x in s)
    && (forall a, b :: a in t && b in t ==> (Precedes(t, a, b) <==> Precedes(s, a, b)))
  }

  lemma RetainKeepsOrder<T(!new)>(keep: T -> bool, s: seq<T>)
    ensures OrderKept(s, Retain(keep, s))
  {
    var t := Retain(keep, s);
    forall a, b | a in t && b in t ensures Precedes(t, a, b) <==> Precedes(s, a, b) {
      if Precedes(t, a, b) {
        RetainPrecedes(keep, s, a, b);
      } else if Precedes(t, b, a) {
        RetainPrecedes(keep, s, b, a);
      } else {
        assert t[Index(t, a)] == t[Index(t, b)];
      }
    }
  }

  lemma OrderKeptTrans<T(!new)>(s: seq<T>, t: seq<T>, u: seq<T>)
    requires OrderKept(s, t) && OrderKept(t, u)
    ensures OrderKept(s, u)
  {
  }

  /** The queues and the rotation of `r` keep the order of those of `s`. */
  ghost predicate Thinned(s: State, r: State) {
    && (forall p :: p in r.projects ==> p in s.projects && OrderKept(s.projects[p], r.projects[p]))
    && OrderKept(s.rotation, r.rotation)
  }

  /** `r` is `s` without the workflows `gone`. */
  ghost predicate Without(s: State, r: State, gone: seq<WorkflowId>) {
    && r.lastTick == s.lastTick && r.maximum == s.maximum
    && (forall w :: w in r.active <==> w in s.active && w !in gone)
    && (forall w :: w in r.active ==> r.active[w] == s.active[w])
    && (forall w :: w in r.waiting <==> w in s.waiting && w !in gone)
    && (forall w :: w in r.waiting ==> w in r.owners && w in s.owners)
    && (forall w :: w in r.waiting ==> r.waiting[w] == s.waiting[w] && r.owners[w] == s.owners[w])
    && Thinned(s, r)
  }

  lemma RemoveLeaves(s: State, w: WorkflowId)
    requires QueuesOk(s)
    ensures QueuesOk(Remove(s, w)) && Without(s, Remove(s, w), [w])
  {
    RemoveKeepsInv(s, w);
    RemoveThins(s, w);
  }

  lemma RemoveThins(s: State, w: WorkflowId)
    requires QueuesOk(s)
    ensures Thinned(s, Remove(s, w))
  {
    if w in s.owners {
      var p := s.owners[w];
      assert QueuedIn(s.projects, p, w);
      RetainKeepsOrder((x: WorkflowId) => x != w, s.projects[p]);
      RetainKeepsOrder((x: ProjectId) => x != p, s.rotation);
    }
  }

  lemma {:induction false} RemovalsLeave(s: State, ws: seq<WorkflowId>)
    requires QueuesOk(s)
    ensures QueuesOk(RemoveAll(s, ws)) && Without(s, RemoveAll(s, ws), ws)
  {
    if ws != [] {
      var front, w := ws[..|ws| - 1], ws[|ws| - 1];
      RemovalsLeave(s, front);
      RemoveLeaves(RemoveAll(s, front), w);
      assert ws == front + [w];
      WithoutTrans(s, RemoveAll(s, front), RemoveAll(s, ws), front, w);
    }
  }

  lemma WithoutTrans(s: State, t: State, u: State, front: seq<WorkflowId>, w: WorkflowId)
    requires Without(s, t, front) && Without(t, u, [w])
    ensures Without(s, u, front + [w])
  {
    forall p | p in u.projects ensures p in s.projects && OrderKept(s.projects[p], u.projects[p]) {
      OrderKeptTrans(s.projects[p], t.projects[p], u.projects[p]);
    }
    OrderKeptTrans(s.rotation, t.rotation, u.rotation);
  }

  /** A lease, and a place in a queue, is kept exactly while its expiry lies ahead, with its expiry, its
      project and the order of the queues and of the rotation. In a state in order these clauses leave
      one possible outcome. */
  ghost predicate Reaped(s: State, r: State, now: Millis) {
    && r.lastTick == s.lastTick && r.maximum == s.maximum
    && (forall w :: w in r.active <==> w in s.active && s.active[w] > now)
    && (forall w :: w in r.active ==> r.active[w] == s.active[w])
    && (forall w :: w in r.waiting <==> w in s.waiting && s.waiting[w] > now)
    && (forall w :: w in r.waiting ==> w in r.owners && w in s.owners)
    && (forall w :: w in r.waiting ==> r.waiting[w] == s.waiting[w] && r.owners[w] == s.owners[w])
    && Thinned(s, r)
  }

  lemma LapsedAreGone(s: State, now: Millis, ws: seq<WorkflowId>, r: State)
    requires Inv(s) && Without(ExpireActive(s, now), r, ws)
    requires forall w :: w in ws <==> w in Abandoned(s, now)
    ensures Reaped(s, r, now)
  {
    hide OrderKept, QueuesOk;
  }

  lemma ExpireKeepsQueues(s: State, now: Millis)
    requires Inv(s)
    ensures QueuesOk(ExpireActive(s, now))
  {
  }

  lemma ReapKeepsExactly(s: State, now: Millis)
    requires Inv(s)
    ensures Inv(Reap(s, now)) && Reaped(s, Reap(s, now), now)
  {
    hide Inv, QueuesOk, Without, Reaped, RemoveAll;
    ReapKeepsInv(s, now);
    var ws := InOrder(Abandoned(s, now));
    ExpireKeepsQueues(s, now);
    RemovalsLeave(ExpireActive(s, now), ws);
    LapsedAreGone(s, now, ws, RemoveAll(ExpireActive(s, now), ws));
  }

  lemma PrecedesInRest<T(!new)>(s: seq<T>, a: T, b: T)
    requires NoDuplicates(s) && s != [] && a in s[1..] && b in s[1..]
    ensures Precedes(s[1..], a, b) <==> Precedes(s, a, b)
  {
    IndexOfRest(s, a);
    IndexOfRest(s, b);
  }

  lemma {:induction false} SameOrderSameList<T(!new)>(t: seq<T>, u: seq<T>)
    requires NoDuplicates(t) && NoDuplicates(u) && forall x :: x in t <==> x in u
    requires forall a, b :: a in t && b in t ==> (Precedes(t, a, b) <==> Precedes(u, a, b))
    ensures t == u
  {
    if u != [] {
      assert u[0] in t;
    }
    if t != [] {
      assert t[0] in u && u[0] in t;
      assert Precedes(t, u[0], t[0]) <==> Precedes(u, u[0], t[0]);
      assert Index(t, t[0]) == 0 && Index(u, t[0]) == 0;
      assert t == [t[0]] + t[1..] && u == [u[0]] + u[1..];
      forall x ensures x in t[1..] <==> x in u[1..] {
        assert x in t[1..] <==> x in t && x != t[0];
        assert x in u[1..] <==> x in u && x != u[0];
      }
      forall a, b | a in t[1..] && b in t[1..] ensures Precedes(t[1..], a, b) <==> Precedes(u[1..], a, b) {
        PrecedesInRest(t, a, b);
        PrecedesInRest(u, a, b);
      }
      SameOrderSameList(t[1..], u[1..]);
    }
  }

  /** A reap is told completely by what it keeps: two states in order that both satisfy the clauses
      above are the same. */
  lemma ReapedIsUnique(s: State, r: State, r': State, now: Millis)
    requires Inv(r) && Inv(r') && Reaped(s, r, now) && Reaped(s, r', now)
    ensures r == r'
  {
    SameMaps(s, r, r', now);
    SameProjects(r, r');
    forall p | p in r.projects ensures r.projects[p] == r'.projects[p] {
      SameQueue(s, r, r', p);
    }
    SameRotation(s, r, r');
  }

  lemma SameMaps(s: State, r: State, r': State, now: Millis)
    requires QueuesOk(r) && QueuesOk(r') && Reaped(s, r, now) && Reaped(s, r', now)
    ensures r.active == r'.active && r.waiting == r'.waiting && r.owners == r'.owners
  {
    hide Thinned;
    assert r.active.Keys == r'.active.Keys && r.waiting.Keys == r'.waiting.Keys;
  }

  lemma SameRotation(s: State, r: State, r': State)
    requires QueuesOk(r) && QueuesOk(r') && Thinned(s, r) && Thinned(s, r')
    requires r.projects.Keys == r'.projects.Keys
    ensures r.rotation == r'.rotation
  {
    assert forall p :: p in r.rotation <==> p in r'.rotation;
    SameOrderSameList(r.rotation, r'.rotation);
  }

  lemma SameProjects(r: State, r': State)
    requires QueuesOk(r) && QueuesOk(r') && r.owners == r'.owners
    ensures r.projects.Keys == r'.projects.Keys
  {
    forall p ensures p in r.projects <==> p in r'.projects {
      if p in r.projects {
        SameProject(r, r', p);
      }
      if p in r'.projects {
        SameProject(r', r, p);
      }
    }
  }

  lemma SameProject(r: State, r': State, p: ProjectId)
    requires QueuesOk(r) && QueuesOk(r') && r.owners == r'.owners && p in r.projects
    ensures p in r'.projects
  {
    assert QueuedIn(r.projects, p, r.projects[p][0]) && QueuedIn(r'.projects, p, r.projects[p][0]);
  }

  lemma SameQueue(s: State, r: State, r': State, p: ProjectId)
    requires QueuesOk(r) && QueuesOk(r') && Thinned(s, r) && Thinned(s, r')
    requires r.owners == r'.owners && p in r.projects && p in r'.projects
    ensures r.projects[p] == r'.projects[p]
  {
    var t, t' := r.projects[p], r'.projects[p];
    forall x ensures x in t <==> x in t' {
      assert x in t <==> QueuedIn(r.projects, p, x);
      assert x in t' <==> QueuedIn(r'.projects, p, x);
    }
    SameOrderSameList(r.projects[p], r'.projects[p]);
  }
}
