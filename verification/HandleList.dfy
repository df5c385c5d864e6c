/**
 handle_list of src/usb_windows.cpp: the circular, doubly linked list of opened devices, with a sentinel.
 */
module HandleList {
  import opened Bytes

  // ------------------------------------------------------------------ names

  /** Device names are compared without regard to case. */
  function Lower(c: char): char {
    if 'A' <= c <= 'Z' then (c as int + 32) as char else c
  }

  predicate SameName(a: string, b: string) {
    |a| == |b| && forall i :: 0 <= i < |a| ==> Lower(a[i]) == Lower(b[i])
  }

  /** The same letter in both cases. */
  predicate CasesOf(upper: char, lower: char) {
    'A' <= upper <= 'Z' && lower as int == upper as int + 32
  }

  /** Names that differ in the case of the letters A to Z at most. */
  predicate Alike(a: string, b: string) {
    |a| == |b| && forall i :: 0 <= i < |a| ==> a[i] == b[i] || CasesOf(a[i], b[i]) || CasesOf(b[i], a[i])
  }

  lemma SameNameIff(a: string, b: string)
    ensures SameName(a, b) <==> Alike(a, b)
  {
    if |a| == |b| {
      forall i | 0 <= i < |a|
        ensures Lower(a[i]) == Lower(b[i]) <==> a[i] == b[i] || CasesOf(a[i], b[i]) || CasesOf(b[i], a[i])
      {
        SameLetter(a[i], b[i]);
      }
      hide Lower, CasesOf;
    }
  }

  lemma SameLetter(c: char, d: char)
    ensures Lower(c) == Lower(d) <==> c == d || CasesOf(c, d) || CasesOf(d, c)
  {
  }

  type Name = Option<string>

  /** Two entries clash if both still have a name and the names agree. */
  predicate Clash(a: Name, b: Name) {
    a.Some? && b.Some? && SameName(a.value, b.value)
  }

  predicate Unique(names: seq<Name>) {
    forall i, j :: 0 <= i < j < |names| ==> !Clash(names[i], names[j])
  }

  predicate Known(names: seq<Name>, name: Name) {
    exists i :: 0 <= i < |names| && Clash(names[i], name)
  }

  /** A device is taken into the list unless one is listed whose name is alike; one without a name always is. */
  lemma RegisteredUnless(names: seq<Name>, name: Name)
    ensures Apply(names, Register(name)) ==
            if name.Some? && exists i :: 0 <= i < |names| && names[i].Some? && Alike(names[i].value, name.value) then names
            else names + [name]
  {
    hide SameName, Alike;
    if name.Some? {
      forall i | 0 <= i < |names| && names[i].Some?
        ensures SameName(names[i].value, name.value) <==> Alike(names[i].value, name.value)
      {
        SameNameIff(names[i].value, name.value);
      }
      if exists i :: 0 <= i < |names| && names[i].Some? && Alike(names[i].value, name.value) {
        var i :| 0 <= i < |names| && names[i].Some? && Alike(names[i].value, name.value);
        assert Clash(names[i], name);
      }
    }
  }

  /** What can happen to the list: a device is registered, kicked or closed. */
  datatype Op = Register(name: Name) | Kick(k: nat) | Close(k: nat)

  function Without<T>(s: seq<T>, k: nat): (t: seq<T>)
    requires k < |s|
    ensures |t| == |s| - 1
  {
    s[..k] + s[k + 1..]
  }

  function Apply(names: seq<Name>, op: Op): seq<Name> {
    match op
    case Register(name) => if Known(names, name) then names else names + [name]
    case Kick(k) => if k < |names| then names[k := None] else names
    case Close(k) => if k < |names| then Without(names, k) else names
  }

  function Run(names: seq<Name>, ops: seq<Op>): seq<Name>
    decreases |ops|
  {
    if ops == [] then names else Run(Apply(names, ops[0]), ops[1..])
  }

  lemma ApplyKeepsUnique(names: seq<Name>, op: Op)
    requires Unique(names)
    ensures Unique(Apply(names, op))
  {
    hide SameName;
    var after := Apply(names, op);
    forall i, j | 0 <= i < j < |after|
      ensures !Clash(after[i], after[j])
    {
      if op.Close? && op.k < |names| {
        var i', j' := if i < op.k then i else i + 1, if j < op.k then j else j + 1;
        assert after[i] == names[i'] && after[j] == names[j'];
        assert !Clash(names[i'], names[j']);
      } else if op.Register? && j == |names| {
        assert !Clash(names[i], op.name);
      } else {
        assert !Clash(names[i], names[j]);
      }
    }
  }

  /** Whatever is registered, kicked and closed, no device is ever listed twice. */
  lemma {:induction false} NeverTwice(names: seq<Name>, ops: seq<Op>)
    requires Unique(names)
    ensures Unique(Run(names, ops))
    decreases |ops|
  {
    if ops != [] {
      ApplyKeepsUnique(names, ops[0]);
      NeverTwice(Apply(names, ops[0]), ops[1..]);
    }
  }

  /** A device that was closed can be registered again at once, and then stands last. */
  lemma ReopenAfterClose(names: seq<Name>, k: nat)
    requires Unique(names) && k < |names|
    ensures Run(names, [Close(k), Register(names[k])]) == Without(names, k) + [names[k]]
  {
    hide SameName;
    var rest := Without(names, k);
    forall i | 0 <= i < |rest|
      ensures !Clash(rest[i], names[k])
    {
      if i < k {
        assert !Clash(names[i], names[k]);
      } else {
        assert !Clash(names[k], names[i + 1]);
        ClashSymmetric(names[i + 1], names[k]);
      }
    }
    var ops := [Close(k), Register(names[k])];
    assert ops[1..] == [Register(names[k])] && ops[1..][1..] == [];
    assert Run(rest, ops[1..]) == Run(Apply(rest, ops[1]), []);
  }

  /** A device that was kicked is still listed, and can be registered again all the same. */
  lemma ReopenAfterKick(names: seq<Name>, k: nat)
    requires Unique(names) && k < |names|
    ensures Run(names, [Kick(k), Register(names[k])]) == names[k := None] + [names[k]]
  {
    hide SameName;
    var rest := names[k := None];
    forall i | 0 <= i < |rest|
      ensures !Clash(rest[i], names[k])
    {
      if i < k {
        assert !Clash(names[i], names[k]);
      } else if i > k {
        assert !Clash(names[k], names[i]);
        ClashSymmetric(names[i], names[k]);
      }
    }
    var ops := [Kick(k), Register(names[k])];
    assert ops[1..] == [Register(names[k])] && ops[1..][1..] == [];
    assert Run(rest, ops[1..]) == Run(Apply(rest, ops[1]), []);
  }

  lemma ClashSymmetric(a: Name, b: Name)
    ensures Clash(a, b) == Clash(b, a)
  {
  }

  // ------------------------------------------------------------------ the list in memory

  class Handle {
    var prev: Handle
    var next: Handle
    var name: Name

    /** do_usb_open, as far as the links and the name go. */
    constructor (name: Name)
      ensures prev == this && next == this && this.name == name
    {
      this.name := name;
      prev := this;
      next := this;
    }
  }

  function After(i: nat, n: nat): (j: nat)
    requires i < n
    ensures j < n
  {
    if i + 1 < n then i + 1 else 0
  }

  function Before(i: nat, n: nat): (j: nat)
    requires i < n
    ensures j < n
  {
    if i > 0 then i - 1 else n - 1
  }

  /** Each node's next is the one after it and its prev the one before it, around the ring. */
  ghost predicate Linked(ring: seq<Handle>)
    reads ring
  {
    && (forall i :: 0 <= i < |ring| ==> ring[i].next == ring[After(i, |ring|)])
    && (forall i :: 0 <= i < |ring| ==> ring[i].prev == ring[Before(i, |ring|)])
  }

  predicate Distinct(ring: seq<Handle>) {
    forall i, j :: 0 <= i < j < |ring| ==> ring[i] != ring[j]
  }

  /** The names of the listed handles, in order; the sentinel comes first in the ring and has none. */
  ghost function Names(ring: seq<Handle>): (names: seq<Name>)
    requires ring != []
    reads ring
    ensures |names| == |ring| - 1 && forall i :: 0 <= i < |names| ==> names[i] == ring[i + 1].name
  {
    seq(|ring| - 1, i requires 0 <= i < |ring| - 1 reads ring => ring[i + 1].name)
  }

  function AfterPast(j: nat, k: nat, n: nat): (i: nat)
    requires j < n && k < n
    ensures i < n
  {
    if j == Before(k, n) then After(k, n) else After(j, n)
  }

  function BeforePast(j: nat, k: nat, n: nat): (i: nat)
    requires j < n && k < n
    ensures i < n
  {
    if j == After(k, n) then Before(k, n) else Before(j, n)
  }

  /** The neighbours of the k-th node point past it; everybody else is as in the ring. */
  ghost predicate Bypassed(ring: seq<Handle>, k: nat)
    requires k < |ring|
    reads ring
  {
    && (forall j: nat :: j < |ring| && j != k ==> ring[j].next == ring[AfterPast(j, k, |ring|)])
    && (forall j: nat :: j < |ring| && j != k ==> ring[j].prev == ring[BeforePast(j, k, |ring|)])
  }

  /** Where the i-th of the rest stood before the k-th was left out. */
  function Formerly(i: nat, k: nat): nat {
    if i < k then i else i + 1
  }

  lemma Neighbours(i: nat, k: nat, n: nat)
    requires 0 < k < n && i < n - 1
    ensures Formerly(After(i, n - 1), k) == AfterPast(Formerly(i, k), k, n)
    ensures Formerly(Before(i, n - 1), k) == BeforePast(Formerly(i, k), k, n)
  {
  }

  lemma WithoutAt<T>(s: seq<T>, k: nat, i: nat)
    requires k < |s| && i < |s| - 1
    ensures Without(s, k)[i] == s[Formerly(i, k)]
  {
  }

  lemma WithoutDistinct(ring: seq<Handle>, k: nat)
    requires k < |ring| && Distinct(ring)
    ensures Distinct(Without(ring, k)) && ring[k] !in Without(ring, k)
  {
  }

  /** Leaving out a bypassed node makes a ring again. */
  lemma LeaveOut(ring: seq<Handle>, k: nat)
    requires 0 < k < |ring| && Distinct(ring) && Bypassed(ring, k)
    ensures Linked(Without(ring, k)) && Distinct(Without(ring, k)) && ring[k] !in Without(ring, k)
  {
    hide Distinct;
    var n := |ring|;
    var rest := Without(ring, k);
    WithoutDistinct(ring, k);
    forall i: nat | i < n - 1
      ensures rest[i].next == rest[After(i, n - 1)] && rest[i].prev == rest[Before(i, n - 1)]
    {
      hide After, Before, AfterPast, BeforePast, Without;
      Neighbours(i, k, n);
      WithoutAt(ring, k, i);
      WithoutAt(ring, k, After(i, n - 1));
      WithoutAt(ring, k, Before(i, n - 1));
      assert ring[Formerly(i, k)].next == ring[AfterPast(Formerly(i, k), k, n)];
      assert ring[Formerly(i, k)].prev == ring[BeforePast(Formerly(i, k), k, n)];
    }
  }

  lemma ListedIsKnown(ring: seq<Handle>, handle: Handle)
    requires ring != [] && handle in ring[1..] && handle.name.Some?
    ensures Known(Names(ring), handle.name)
  {
    var i :| 0 <= i < |ring| - 1 && ring[1..][i] == handle;
    assert Clash(Names(ring)[i], handle.name);
  }

  lemma NamesWithout(ring: seq<Handle>, k: nat)
    requires k + 1 < |ring|
    ensures Names(Without(ring, k + 1)) == Without(Names(ring), k)
  {
  }

  /** A node with others in its ring does not link to itself. */
  lemma NotAlone(ring: seq<Handle>, k: nat)
    requires Distinct(ring) && Linked(ring)
    ensures 0 < k < |ring| ==> ring[k].next != ring[k] && ring[k].prev != ring[k]
  {
    if 0 < k < |ring| {
      assert ring[k].next == ring[After(k, |ring|)] && ring[k].prev == ring[Before(k, |ring|)];
    }
  }

  class UsbWindows {
    const head: Handle
    ghost var ring: seq<Handle>

    ghost predicate Valid()
      reads this`ring, ring
    {
      ring != [] && ring[0] == head && Distinct(ring) && Linked(ring) && Unique(Names(ring))
    }

    constructor ()
      ensures Valid() && ring == [head] && fresh(head)
    {
      head := new Handle(None);
      ring := [head];
    }

    /** known_device_locked */
    method KnownDevice(name: Name) returns (known: bool)
      requires Valid()
      ensures known == Known(Names(ring), name)
    {
      hide SameName;
      if name.None? {
        return false;
      }
      var usb := head.next;
      ghost var i: nat := After(0, |ring|);
      ghost var seen: nat := 0;
      while usb != head
        invariant seen < |ring| && i == After(seen, |ring|) && usb == ring[i]
        invariant forall k :: 0 <= k < seen ==> !Clash(Names(ring)[k], name)
        decreases |ring| - seen
      {
        if usb.name.Some? {
          var same := CompareNames(usb.name.value, name.value);
          if same {
            assert Clash(Names(ring)[seen], name);
            return true;
          }
        }
        usb := usb.next;
        i := After(i, |ring|);
        seen := seen + 1;
      }
      known := false;
    }

    /** _wcsicmp, for equality */
    method CompareNames(a: string, b: string) returns (same: bool)
      ensures same == SameName(a, b)
    {
      if |a| != |b| {
        return false;
      }
      var i := 0;
      while i < |a|
        invariant 0 <= i <= |a| && forall k :: 0 <= k < i ==> Lower(a[k]) == Lower(b[k])
      {
        if Lower(a[i]) != Lower(b[i]) {
          return false;
        }
        i := i + 1;
      }
      same := true;
    }

    /** The five assignments of register_new_device: the handle goes between the tail and the sentinel. */
    method LinkAtTail(handle: Handle)
      requires ring != [] && ring[0] == head && Distinct(ring) && Linked(ring) && handle !in ring
      modifies this`ring, handle`next, handle`prev, ring`next, ring`prev
      ensures ring == old(ring) + [handle] && Distinct(ring) && Linked(ring)
    {
      ghost var n := |ring|;
      assert head.prev == ring[Before(0, n)];
      handle.next := head;
      handle.prev := head.prev;
      handle.prev.next := handle;
      handle.next.prev := handle;
      ring := ring + [handle];
      forall i | 0 <= i < n + 1
        ensures ring[i].next == ring[After(i, n + 1)] && ring[i].prev == ring[Before(i, n + 1)]
      {
      }
    }

    /**
     register_new_device: the handle is added at the tail unless its name is known, as that of a listed handle is
     until it is kicked.
     */
    method RegisterNewDevice(handle: Handle) returns (added: bool)
      requires Valid() && (handle !in ring || (handle in ring[1..] && handle.name.Some?))
      modifies this`ring, handle`next, handle`prev, ring`next, ring`prev
      ensures Valid() && added == !Known(old(Names(ring)), handle.name)
      ensures ring == if added then old(ring) + [handle] else old(ring)
      ensures Names(ring) == Apply(old(Names(ring)), Register(handle.name))
    {
      hide SameName, Clash, Linked;
      if handle in ring {
        ListedIsKnown(ring, handle);
      }
      var known := KnownDevice(handle.name);
      if known {
        return false;
      }
      ghost var names := Names(ring);
      ApplyKeepsUnique(names, Register(handle.name));
      LinkAtTail(handle);
      assert Names(ring) == names + [handle.name];
      added := true;
    }

    /** usb_kick, which forgets the name but leaves the handle where it is; of the k-th handle, or of none listed. */
    method UsbKick(handle: Handle, ghost k: nat)
      requires Valid()
      requires if k + 1 < |ring| then ring[k + 1] == handle else handle !in ring
      modifies handle`name
      ensures Valid() && handle.name == None && Names(ring) == Apply(old(Names(ring)), Kick(k))
    {
      hide SameName, Clash;
      ApplyKeepsUnique(Names(ring), Kick(k));
      handle.name := None;
      assert Names(ring) == Apply(old(Names(ring)), Kick(k));
    }

    /** The four assignments of usb_close on a handle in the ring. */
    method Unlink(handle: Handle, ghost k: nat)
      requires ring != [] && ring[0] == head && Distinct(ring) && Linked(ring)
      requires 0 < k < |ring| && ring[k] == handle
      modifies this`ring, ring`next, ring`prev
      ensures ring == Without(old(ring), k) && ring != [] && ring[0] == head && Distinct(ring) && Linked(ring)
      ensures handle.next == handle && handle.prev == handle && handle !in ring
    {
      Bypass(handle, k);
      LeaveOut(ring, k);
      ring := Without(ring, k);
    }

    method Bypass(handle: Handle, ghost k: nat)
      requires Distinct(ring) && Linked(ring) && 0 < k < |ring| && ring[k] == handle
      modifies ring`next, ring`prev
      ensures Bypassed(ring, k) && handle.next == handle && handle.prev == handle
    {
      ghost var n := |ring|;
      NotAlone(ring, k);
      assert handle.next == ring[After(k, n)] && handle.prev == ring[Before(k, n)];
      hide After, Before;
      handle.next.prev := handle.prev;
      handle.prev.next := handle.next;
      handle.prev := handle;
      handle.next := handle;
    }

    /**
     usb_close. A listed handle, the k-th, is unlinked and then links only to itself; a handle that links
     to itself leaves the list as it is.
     */
    method UsbClose(handle: Handle, ghost k: nat)
      requires Valid()
      requires if k + 1 < |ring| then ring[k + 1] == handle else handle !in ring && handle.next == handle
      modifies this`ring, handle`name, ring`next, ring`prev
      ensures Valid() && handle.next == handle && handle.name == None
      ensures ring == if k + 1 < |old(ring)| then Without(old(ring), k + 1) else old(ring)
      ensures Names(ring) == Apply(old(Names(ring)), Close(k))
    {
      hide SameName, Clash, Without, Linked, Distinct, Unique;
      ghost var before, names := ring, Names(ring);
      ApplyKeepsUnique(names, Close(k));
      NotAlone(ring, k + 1);
      if handle.next != handle && handle.prev != handle {
        Unlink(handle, k + 1);
        NamesWithout(before, k);
        assert Names(before) == names;
      }
      handle.name := None;
    }

    /** usb_handle_enum_init */
    method EnumInit() returns (usb: Handle?)
      requires Valid()
      ensures usb == if |ring| == 1 then null else ring[1]
    {
      hide Unique;
      assert head.next == ring[After(0, |ring|)];
      usb := head.next;
      if usb == head {
        return null;
      }
    }

    /** usb_handle_next, of the k-th listed handle. */
    method EnumNext(usb: Handle?, ghost k: nat) returns (next: Handle?)
      requires Valid() && (usb != null && usb != head ==> k + 1 < |ring| && ring[k + 1] == usb)
      ensures next == if usb == null || usb == head || k + 2 == |ring| then null else ring[k + 2]
    {
      hide Unique;
      if usb == null {
        return null;
      }
      if usb == head {
        return null;
      }
      assert usb.next == ring[After(k + 1, |ring|)];
      if usb.next == head {
        return null;
      }
      next := usb.next;
    }

    /** Walking with the two of them visits every listed handle once, in order of registration. */
    method Enumerate() returns (visited: seq<Handle>)
      requires Valid()
      ensures visited == ring[1..]
    {
      visited := [];
      var usb := EnumInit();
      while usb != null
        invariant |visited| < |ring| && visited == ring[1..|visited| + 1]
        invariant usb == if |visited| + 1 < |ring| then ring[|visited| + 1] else null
        decreases |ring| - |visited|
      {
        ghost var k := |visited|;
        visited := visited + [usb];
        usb := EnumNext(usb, k);
      }
    }
  }
}
