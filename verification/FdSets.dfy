/** Winsock's fd_set: a duplicate-free array of at most FD_SETSIZE descriptors; FD_SET on a full set is ignored. */
module FdSets {

  const FD_SETSIZE: nat := 64

  ghost predicate IsFdSet(s: seq<int>) {
    |s| <= FD_SETSIZE && Distinct(s)
  }

  ghost predicate Distinct(s: seq<int>) {
    forall i, j | 0 <= i < j < |s| :: s[i] != s[j]
  }

  function FdAdd(s: seq<int>, fd: int): seq<int> {
    if fd in s || FD_SETSIZE <= |s| then s else s + [fd]
  }

  function FdClr(s: seq<int>, fd: int): (r: seq<int>)
    ensures |r| <= |s|
  {
    if s == [] then []
    else if s[0] == fd then s[1..]
    else [s[0]] + FdClr(s[1..], fd)
  }

  ghost function Members(s: seq<int>): set<int> {
    set fd | fd in s
  }

  lemma AddMembers(s: seq<int>, fd: int)
    requires IsFdSet(s)
    ensures IsFdSet(FdAdd(s, fd))
    ensures Members(FdAdd(s, fd)) == Members(s) + if fd in s || |s| < FD_SETSIZE then {fd} else {}
  {
  }

  lemma {:induction false} ClrIn(s: seq<int>, fd: int, x: int)
    requires Distinct(s)
    ensures x in FdClr(s, fd) <==> x in s && x != fd
  {
    if s != [] {
      assert s == [s[0]] + s[1..];
      if s[0] != fd {
        ClrIn(s[1..], fd, x);
      }
    }
  }

  lemma {:induction false} ClrDistinct(s: seq<int>, fd: int)
    requires Distinct(s)
    ensures Distinct(FdClr(s, fd))
  {
    if s != [] && s[0] != fd {
      ClrDistinct(s[1..], fd);
      ClrIn(s[1..], fd, s[0]);
    }
  }

  lemma ClrMembers(s: seq<int>, fd: int)
    requires IsFdSet(s)
    ensures IsFdSet(FdClr(s, fd)) && Members(FdClr(s, fd)) == Members(s) - {fd}
  {
    ClrDistinct(s, fd);
    forall x ensures x in FdClr(s, fd) <==> x in s && x != fd {
      ClrIn(s, fd, x);
    }
  }

  lemma {:induction false} ClrLength(s: seq<int>, fd: int)
    requires fd in s
    ensures |FdClr(s, fd)| == |s| - 1
  {
    if s[0] != fd {
      ClrLength(s[1..], fd);
    }
  }

  lemma {:induction false} ClrAbsent(s: seq<int>, fd: int)
    requires fd !in s
    ensures FdClr(s, fd) == s
  {
    if s != [] {
      ClrAbsent(s[1..], fd);
    }
  }

  /** Clearing undoes setting, order included. */
  lemma {:induction false} ClrAfterAdd(s: seq<int>, fd: int)
    requires fd !in s
    ensures FdClr(FdAdd(s, fd), fd) == s
  {
    if |s| < FD_SETSIZE {
      if s != [] {
        ClrAfterAdd(s[1..], fd);
        assert (s + [fd])[1..] == s[1..] + [fd];
      }
    } else {
      ClrAbsent(s, fd);
    }
  }

  lemma {:induction false} MembersCount(s: seq<int>)
    requires Distinct(s)
    ensures |Members(s)| == |s|
  {
    if s != [] {
      MembersCount(s[1..]);
      assert Members(s) == Members(s[1..]) + {s[0]};
    }
  }
}
