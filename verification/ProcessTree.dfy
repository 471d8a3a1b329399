/** Process evidence for the terminal driver: which processes belong to the
    child, and which device its controlling terminal is. */
module ProcessTree {

  // ------------------------------------------------------ the process tree

  /** pid reaches root through n recorded parents. */
  ghost predicate Climbs(parents: map<nat, nat>, pid: nat, root: nat, n: nat)
    decreases n
  {
    if n == 0 then pid == root else pid in parents && Climbs(parents, parents[pid], root, n - 1)
  }

  ghost predicate Belongs(parents: map<nat, nat>, pid: nat, root: nat) {
    exists n: nat :: Climbs(parents, pid, root, n)
  }

  ghost predicate Increasing(s: seq<nat>) {
    forall i, j :: 0 <= i < j < |s| ==> s[i] < s[j]
  }

  /** _pty_reader_pids: parents holds the processes whose state could be read.
      They may form cycles or name parents that are gone. */
  method PtyReaderPids(rootExists: bool, root: nat, parents: map<nat, nat>) returns (pids: seq<nat>)
    ensures !rootExists ==> pids == []
    ensures rootExists ==> forall pid :: pid in pids <==> Belongs(parents, pid, root)
    ensures Increasing(pids)
  {
    if !rootExists {
      return [];
    }
    var found := {root};
    assert Climbs(parents, root, root, 0);
    var changed := true;
    while changed
      invariant root in found && found <= parents.Keys + {root}
      invariant forall pid | pid in found :: Belongs(parents, pid, root)
      invariant !changed ==> forall pid | pid in parents :: parents[pid] in found ==> pid in found
      decreases parents.Keys - found, changed
    {
      found, changed := OnePass(root, parents, found);
    }
    forall pid | Belongs(parents, pid, root) ensures pid in found {
      var n: nat :| Climbs(parents, pid, root, n);
      ClosedUnderClimbing(parents, found, pid, root, n);
    }
    pids := SortPids(found);
  }

  method OnePass(root: nat, parents: map<nat, nat>, before: set<nat>) returns (found: set<nat>, changed: bool)
    requires forall pid | pid in before :: Belongs(parents, pid, root)
    requires before <= parents.Keys + {root}
    ensures before <= found <= parents.Keys + {root}
    ensures forall pid | pid in found :: Belongs(parents, pid, root)
    ensures !changed ==> found == before && forall pid | pid in parents :: parents[pid] in found ==> pid in found
    ensures changed ==> exists pid :: pid in parents.Keys - before && pid !in parents.Keys - found
  {
    found, changed := before, false;
    var rest := parents.Keys;
    while rest != {}
      invariant rest <= parents.Keys && before <= found <= parents.Keys + {root}
      invariant forall pid | pid in found :: Belongs(parents, pid, root)
      invariant !changed ==> found == before && forall pid | pid in parents.Keys - rest :: parents[pid] in found ==> pid in found
      invariant changed ==> exists pid :: pid in parents.Keys - before && pid !in parents.Keys - found
    {
      var pid :| pid in rest;
      if parents[pid] in found && pid !in found {
        ghost var n: nat :| Climbs(parents, parents[pid], root, n);
        assert Climbs(parents, pid, root, n + 1);
        assert pid in parents.Keys - before && pid !in parents.Keys - (found + {pid});
        found := found + {pid};
        changed := true;
      }
      rest := rest - {pid};
    }
  }

  lemma {:induction false} ClosedUnderClimbing(parents: map<nat, nat>, found: set<nat>, pid: nat, root: nat, n: nat)
    requires root in found && forall p | p in parents :: parents[p] in found ==> p in found
    requires Climbs(parents, pid, root, n)
    ensures pid in found
    decreases n
  {
    if n > 0 {
      ClosedUnderClimbing(parents, found, parents[pid], root, n - 1);
    }
  }

  predicate Below(p: nat, q: nat) {
    p < q
  }

  method SortPids(found: set<nat>) returns (pids: seq<nat>)
    ensures forall pid :: pid in pids <==> pid in found
    ensures Increasing(pids)
  {
    pids := [];
    var rest := found;
    while rest != {}
      invariant rest <= found
      invariant forall pid :: pid in pids <==> pid in found - rest
      invariant Increasing(pids)
      invariant forall p, q | p in pids && q in rest :: Below(p, q)
    {
      var least := Smallest(rest);
      forall k | 0 <= k < |pids| ensures pids[k] < least {
        assert pids[k] in pids && Below(pids[k], least);
      }
      pids := pids + [least];
      rest := rest - {least};
    }
  }

  method Smallest(s: set<nat>) returns (least: nat)
    requires s != {}
    ensures least in s && forall x | x in s :: x == least || Below(least, x)
  {
    least :| least in s;
    var rest := s - {least};
    while rest != {}
      invariant rest <= s && least in s
      invariant forall x | x in s && x !in rest :: x == least || Below(least, x)
    {
      var x: nat :| x in rest;
      if Below(x, least) {
        least := x;
      }
      rest := rest - {x};
    }
  }

  // ---------------------------------------------------------- device numbers

  /** x & ~(m - 1) for a power of two m: Python's integers have no width and
      >> rounds down, so this also covers negative numbers. */
  function ClearBelow(x: int, m: int): int
    requires m > 0
  {
    x - x % m
  }

  /** _decode_linux_device_number, with | of disjoint bits written as +. */
  function DecodeDevice(encoded: int): (int, int) {
    (encoded / 0x100 % 0x1000 + ClearBelow(encoded / 0x1_0000_0000, 0x1000),
     encoded % 0x100 + ClearBelow(encoded / 0x1000, 0x100))
  }

  /** How Linux packs a device number: the minor's low 8 bits, the major's 12
      bits, the minor's high 12 bits. */
  function EncodeDevice(major: int, minor: int): int {
    minor % 0x100 + major * 0x100 + minor / 0x100 * 0x10_0000
  }

  predicate InRange(device: (int, int)) {
    0 <= device.0 < 0x1000 && 0 <= device.1 < 0x10_0000
  }

  lemma DecodePacked(low: int, major: int, high: int)
    requires 0 <= low < 0x100 && 0 <= major < 0x1000 && 0 <= high < 0x1000
    ensures DecodeDevice(low + major * 0x100 + high * 0x10_0000) == (major, low + high * 0x100)
  {
    var e := low + major * 0x100 + high * 0x10_0000;
    assert e / 0x100 == major + high * 0x1000;
    assert e / 0x1000 == major / 0x10 + high * 0x100;
    assert e / 0x1_0000_0000 == 0;
  }

  /** Decoding undoes packing ... */
  lemma DecodeEncode(major: int, minor: int)
    requires InRange((major, minor))
    ensures 0 <= EncodeDevice(major, minor) < 0x1_0000_0000
    ensures DecodeDevice(EncodeDevice(major, minor)) == (major, minor)
  {
    DecodePacked(minor % 0x100, major, minor / 0x100);
  }

  /** ... and packing undoes decoding, so the two are bijections between 32-bit
      numbers and pairs in range. */
  lemma EncodeDecode(encoded: int)
    requires 0 <= encoded < 0x1_0000_0000
    ensures InRange(DecodeDevice(encoded))
    ensures EncodeDevice(DecodeDevice(encoded).0, DecodeDevice(encoded).1) == encoded
  {
    hide DecodeDevice;
    var low, mid, high := encoded % 0x100, encoded / 0x100 % 0x1000, encoded / 0x10_0000;
    assert encoded == low + mid * 0x100 + high * 0x10_0000 by {
      assert encoded / 0x100 / 0x1000 == high;
      assert encoded / 0x100 == mid + high * 0x1000;
    }
    DecodePacked(low, mid, high);
    assert (low + high * 0x100) / 0x100 == high;
    assert (low + high * 0x100) % 0x100 == low;
  }

  /** Outside 32 bits nothing is mistaken for a device in range; a terminal whose
      number the kernel prints as negative is never recognised. */
  lemma InRangeExactly(encoded: int)
    ensures InRange(DecodeDevice(encoded)) <==> 0 <= encoded < 0x1_0000_0000
  {
    if encoded < 0 {
      Cleared(encoded / 0x1_0000_0000, 0x1000);
    } else if encoded < 0x1_0000_0000 {
      EncodeDecode(encoded);
    } else {
      Cleared(encoded / 0x1000, 0x100);
    }
  }

  lemma Cleared(x: int, m: int)
    requires m > 0
    ensures x < 0 ==> ClearBelow(x, m) <= -m
    ensures ClearBelow(x, m) > x - m
  {
    assert ClearBelow(x, m) == x / m * m;
    if x < 0 {
      assert x / m <= -1;
    }
  }
}
