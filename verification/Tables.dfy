/** The repeater's connection and process tables: fixed arrays searched from the front. */
module Tables {
  import opened Wrappers

  /** code 0 marks a free slot; positive codes come from peers, negative ones are invented in Mode 1. */
  datatype Slot = Slot(code: int, active: bool, socket: int)

  type Table = seq<Slot>

  /**
    * A relay child. The C entry holds code and pid; the two sockets handed to the
    * child are kept here as history.
    */
  datatype Proc = Proc(code: int, pid: int, server: int, viewer: int)

  /** The first slot with the code, or |t| when there is none. */
  function Find(t: Table, code: int): (i: nat)
    ensures i <= |t|
    ensures i < |t| ==> t[i].code == code
    ensures forall k :: 0 <= k < i ==> t[k].code != code
  {
    if t == [] then 0 else if t[0].code == code then 0 else 1 + Find(t[1..], code)
  }

  predicate Has(t: Table, code: int) {
    Find(t, code) < |t|
  }

  function Lookup(t: Table, code: int): Option<Slot> {
    if Has(t, code) then Some(t[Find(t, code)]) else None
  }

  /** Puts an idle connection into the first free slot, if there is one. */
  function Add(t: Table, code: int, socket: int): Table {
    if Has(t, 0) then t[Find(t, 0) := Slot(code, false, socket)] else t
  }

  function Remove(t: Table, code: int): Table {
    if Has(t, code) then t[Find(t, code) := t[Find(t, code)].(code := 0, active := false)] else t
  }

  function Activate(t: Table, code: int): Table {
    if Has(t, code) then t[Find(t, code) := t[Find(t, code)].(active := true)] else t
  }

  /** No code sits in two slots, and free slots are not active. */
  ghost predicate Proper(t: Table) {
    && (forall i, j :: 0 <= i < j < |t| && t[i].code != 0 ==> t[i].code != t[j].code)
    && (forall i :: 0 <= i < |t| && t[i].code == 0 ==> !t[i].active)
  }

  lemma FindUnique(t: Table, i: nat)
    requires Proper(t) && i < |t| && t[i].code != 0
    ensures Find(t, t[i].code) == i
  {
  }

  /** Rewriting one slot leaves every other code where it was. */
  lemma LookupUpdate(t: Table, i: nat, s: Slot, other: int)
    requires Proper(t) && i < |t| && other != 0 && other != s.code && other != t[i].code
    ensures Lookup(t[i := s], other) == Lookup(t, other)
    ensures Has(t, other) ==> Find(t[i := s], other) == Find(t, other)
  {
    var u := t[i := s];
    var a, b := Find(t, other), Find(u, other);
    if a < |t| {
      assert u[a] == t[a];
    }
    if b < |t| {
      assert u[b] == t[b];
    }
  }

  lemma AddProper(t: Table, code: int, socket: int)
    requires Proper(t) && code != 0 && Has(t, 0) && !Has(t, code)
    ensures Proper(Add(t, code, socket)) && |Add(t, code, socket)| == |t|
    ensures Find(Add(t, code, socket), code) == Find(t, 0)
    ensures Lookup(Add(t, code, socket), code) == Some(Slot(code, false, socket))
  {
    var u, i := Add(t, code, socket), Find(t, 0);
    assert u[i] == Slot(code, false, socket);
    assert Proper(u);
    FindUnique(u, i);
  }

  lemma RemoveProper(t: Table, code: int)
    requires Proper(t) && code != 0
    ensures Proper(Remove(t, code)) && |Remove(t, code)| == |t|
    ensures !Has(Remove(t, code), code)
  {
    if Has(t, code) {
      var u, i := Remove(t, code), Find(t, code);
      assert u[i].code == 0;
      assert Proper(u);
      forall k | 0 <= k < |u|
        ensures u[k].code != code
      {
        if k != i {
          assert t[k].code != t[i].code;
        }
      }
    }
  }

  lemma ActivateProper(t: Table, code: int)
    requires Proper(t) && code != 0
    ensures Proper(Activate(t, code)) && |Activate(t, code)| == |t|
    ensures Find(Activate(t, code), code) == Find(t, code)
    ensures Has(t, code) ==> Lookup(Activate(t, code), code) == Some(Lookup(t, code).value.(active := true))
  {
    if Has(t, code) {
      var u, i := Activate(t, code), Find(t, code);
      assert u[i].code == code;
      assert Proper(u);
      FindUnique(u, i);
    }
  }

  lemma {:induction false} OthersKept(t: Table, code: int, socket: int, other: int)
    requires Proper(t) && code != 0 && other != 0 && other != code
    ensures Lookup(Add(t, code, socket), other) == Lookup(t, other)
    ensures Lookup(Remove(t, code), other) == Lookup(t, other)
    ensures Lookup(Activate(t, code), other) == Lookup(t, other)
  {
    if Has(t, 0) {
      LookupUpdate(t, Find(t, 0), Slot(code, false, socket), other);
    }
    if Has(t, code) {
      var i := Find(t, code);
      LookupUpdate(t, i, t[i].(code := 0, active := false), other);
      LookupUpdate(t, i, t[i].(active := true), other);
    }
  }

  function FindProc(ps: seq<Proc>, code: int): (i: nat)
    ensures i <= |ps|
    ensures i < |ps| ==> ps[i].code == code
    ensures forall k :: 0 <= k < i ==> ps[k].code != code
  {
    if ps == [] then 0 else if ps[0].code == code then 0 else 1 + FindProc(ps[1..], code)
  }

  function FindPid(ps: seq<Proc>, pid: int): (i: nat)
    ensures i <= |ps|
    ensures i < |ps| ==> ps[i].pid == pid
    ensures forall k :: 0 <= k < i ==> ps[k].pid != pid
  {
    if ps == [] then 0 else if ps[0].pid == pid then 0 else 1 + FindPid(ps[1..], pid)
  }

  function AddProc(ps: seq<Proc>, p: Proc): seq<Proc> {
    var i := FindProc(ps, 0);
    if i < |ps| then ps[i := p] else ps
  }

  function RemoveProc(ps: seq<Proc>, pid: int): seq<Proc> {
    var i := FindPid(ps, pid);
    if i < |ps| then ps[i := ps[i].(code := 0, pid := 0)] else ps
  }

  ghost function Codes(t: Table): set<int> {
    set i | 0 <= i < |t| :: t[i].code
  }

  lemma {:induction false} CodesFit(t: Table)
    ensures |Codes(t)| <= |t|
  {
    if t != [] {
      var n := |t| - 1;
      CodesFit(t[..n]);
      assert Codes(t) == Codes(t[..n]) + {t[n].code} by {
        forall c | c in Codes(t) ensures c in Codes(t[..n]) + {t[n].code} {
          var i :| 0 <= i < |t| && t[i].code == c;
          assert i < n ==> t[..n][i].code == c;
        }
        forall c | c in Codes(t[..n]) ensures c in Codes(t) {
          var i :| 0 <= i < n && t[..n][i].code == c;
          assert t[i].code == c;
        }
      }
    }
  }

  /** The codes of the busy entries. */
  ghost function ProcCodes(ps: seq<Proc>): set<int> {
    set i | 0 <= i < |ps| && ps[i].code != 0 :: ps[i].code
  }

  lemma {:induction false} DistinctProcs(ps: seq<Proc>)
    requires forall i :: 0 <= i < |ps| ==> ps[i].code != 0
    requires forall i, j :: 0 <= i < j < |ps| ==> ps[i].code != ps[j].code
    ensures |ProcCodes(ps)| == |ps|
  {
    if ps != [] {
      var n := |ps| - 1;
      DistinctProcs(ps[..n]);
      assert ps[n].code !in ProcCodes(ps[..n]);
      assert ProcCodes(ps) == ProcCodes(ps[..n]) + {ps[n].code} by {
        forall c | c in ProcCodes(ps) ensures c in ProcCodes(ps[..n]) + {ps[n].code} {
          var i :| 0 <= i < |ps| && ps[i].code == c;
          assert i < n ==> ps[..n][i].code == c;
        }
        forall c | c in ProcCodes(ps[..n]) ensures c in ProcCodes(ps) {
          var i :| 0 <= i < n && ps[..n][i].code == c;
          assert ps[i].code == c;
        }
      }
    }
  }

  lemma BusyFit(ps: seq<Proc>, t: Table, code: int)
    requires Has(t, code)
    requires forall i :: 0 <= i < |ps| && ps[i].code != 0 ==> ps[i].code != code && Has(t, ps[i].code)
    ensures |ProcCodes(ps)| < |t|
  {
    var need := ProcCodes(ps) + {code};
    forall c | c in need
      ensures c in Codes(t)
    {
      assert t[Find(t, c)].code == c;
    }
    SubsetSize(need, Codes(t));
    CodesFit(t);
  }

  /**
    * Pigeonhole: when the busy entries name different codes of a table of the same
    * size, and one more code of that table has no entry, an entry is free.
    */
  lemma FreeProc(ps: seq<Proc>, t: Table, code: int)
    requires |ps| == |t| && Has(t, code)
    requires forall i, j :: 0 <= i < j < |ps| && ps[i].code != 0 ==> ps[i].code != ps[j].code
    requires forall i :: 0 <= i < |ps| && ps[i].code != 0 ==> ps[i].code != code && Has(t, ps[i].code)
    ensures FindProc(ps, 0) < |ps|
  {
    BusyFit(ps, t, code);
    if FindProc(ps, 0) == |ps| {
      DistinctProcs(ps);
    }
  }

  lemma {:induction false} SubsetSize(a: set<int>, b: set<int>)
    requires a <= b
    ensures |a| <= |b|
  {
    assert |b| == |a| + |b - a| by {
      assert b == a + (b - a);
    }
  }
}
