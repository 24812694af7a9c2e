/** vtysh_config.c: config_top, the sorted list of recorded configuration lines. */
module ConfigStore {
  import opened CText
  import opened ListSpec
  import LinkList

  function AddLine(top: seq<string>, line: string): seq<string> {
    InsertSorted(top, line, Less)
  }

  function DelLine(top: seq<string>, line: string): seq<string> {
    RemoveFirst(top, l => l == line)
  }

  /** config_del_line_byleft: the first line that begins with the given text. */
  function DelLeft(top: seq<string>, left: string): seq<string> {
    RemoveFirst(top, l => left <= l)
  }

  ghost predicate StrictlyIncreasing(top: seq<string>) {
    Increasing(top, Less)
  }

  // ---- The operations on the linked list ----

  method ConfigAddLine(config: LinkList.List, line: string)
    requires config.Valid() && config.cmp == Some(Less)
    modifies config, config.repr
    ensures config.Valid() && fresh(config.repr - old(config.repr))
    ensures config.contents == AddLine(old(config.contents), line)
  {
    config.AddSort(line);
  }

  method ConfigDelLine(config: LinkList.List, line: string)
    requires config.Valid()
    modifies config, config.repr
    ensures config.Valid() && config.repr == old(config.repr)
    ensures config.contents == DelLine(old(config.contents), line)
  {
    var nn := config.head;
    ghost var k := 0;
    while nn != null
      invariant k <= |config.nodes| && nn == LinkList.At(config.nodes, k)
      invariant forall i :: 0 <= i < k ==> config.contents[i] != line
      decreases |config.nodes| - k
    {
      if nn.data == line {
        FindUnique(config.contents, l => l == line, k);
        FindUnique(config.contents, x => x == nn.data, k);
        config.Delete(nn.data);
        return;
      }
      nn := nn.next;
      k := k + 1;
    }
    FindUnique(config.contents, l => l == line, |config.contents|);
  }

  method ConfigDelLineByLeft(config: LinkList.List, left: string)
    requires config.Valid()
    modifies config, config.repr
    ensures config.Valid() && config.repr == old(config.repr)
    ensures config.contents == DelLeft(old(config.contents), left)
  {
    var nn := config.head;
    ghost var k := 0;
    while nn != null
      invariant k <= |config.nodes| && nn == LinkList.At(config.nodes, k)
      invariant forall i :: 0 <= i < k ==> !(left <= config.contents[i])
      decreases |config.nodes| - k
    {
      if left <= nn.data {
        FindUnique(config.contents, l => left <= l, k);
        FindUnique(config.contents, x => x == nn.data, k);
        config.Delete(nn.data);
        return;
      }
      nn := nn.next;
      k := k + 1;
    }
    FindUnique(config.contents, l => left <= l, |config.contents|);
  }

  method ConfigGetLineByLeft(config: LinkList.List, left: string) returns (line: Option<string>)
    requires config.Valid()
    ensures line == var k := Find(config.contents, (l: string) => left <= l);
                    if k < |config.contents| then Some(config.contents[k]) else None
  {
    var nn := config.head;
    ghost var k := 0;
    while nn != null
      invariant k <= |config.nodes| && nn == LinkList.At(config.nodes, k)
      invariant forall i :: 0 <= i < k ==> !(left <= config.contents[i])
      decreases |config.nodes| - k
    {
      if left <= nn.data {
        FindUnique(config.contents, l => left <= l, k);
        return Some(nn.data);
      }
      nn := nn.next;
      k := k + 1;
    }
    FindUnique(config.contents, l => left <= l, |config.contents|);
    return None;
  }

  // ---- Order ----

  lemma AllDifferent(top: seq<string>)
    requires StrictlyIncreasing(top)
    ensures forall i, j :: 0 <= i < j < |top| ==> top[i] != top[j]
  {
    forall i, j | 0 <= i < j < |top| ensures top[i] != top[j] {
      LessIrreflexive(top[i]);
    }
  }

  /** Deleting keeps the order and removes at most the line it found. */
  lemma RemoveFirstKeeps(top: seq<string>, p: string -> bool)
    requires StrictlyIncreasing(top)
    ensures StrictlyIncreasing(RemoveFirst(top, p))
    ensures var k := Find(top, p);
            forall l :: l in RemoveFirst(top, p) <==> l in top && (k < |top| ==> l != top[k])
  {
    var k := Find(top, p);
    if k < |top| {
      AllDifferent(top);
      forall l ensures l in top[..k] + top[k + 1..] <==> l in top && l != top[k] { WithoutMember(top, k, l); }
    }
  }

  lemma WithoutMember(top: seq<string>, k: nat, l: string)
    requires k < |top| && forall i, j :: 0 <= i < j < |top| ==> top[i] != top[j]
    ensures l in top[..k] + top[k + 1..] <==> l in top && l != top[k]
  {
    var r := top[..k] + top[k + 1..];
    assert forall i :: 0 <= i < |r| ==> r[i] == top[if i < k then i else i + 1];
    if l in top && l != top[k] {
      var i :| 0 <= i < |top| && top[i] == l;
      assert r[if i < k then i else i - 1] == l;
    }
  }

  /** Adding a new line keeps the order strict and adds exactly that line. */
  lemma AddLineKeeps(top: seq<string>, line: string)
    requires StrictlyIncreasing(top) && line !in top
    ensures StrictlyIncreasing(AddLine(top, line))
    ensures forall l :: l in AddLine(top, line) <==> l in top || l == line
  {
    AddLineOrder(top, line);
    var k := InsertPos(top, line, Less);
    assert top == top[..k] + top[k..];
    assert forall l :: l in top <==> l in top[..k] || l in top[k..];
  }

  lemma AddLineSides(top: seq<string>, line: string)
    requires StrictlyIncreasing(top) && line !in top
    ensures var k := InsertPos(top, line, Less);
            (forall i :: 0 <= i < k ==> Less(top[i], line)) && (forall i :: k <= i < |top| ==> Less(line, top[i]))
  {
    var k := InsertPos(top, line, Less);
    forall i | 0 <= i < k ensures Less(top[i], line) {
      LessTotal(top[i], line);
      assert top[i] in top;
    }
    forall i | k <= i < |top| ensures Less(line, top[i]) {
      if k < i { LessTransitive(line, top[k], top[i]); }
    }
  }

  lemma AddLineOrder(top: seq<string>, line: string)
    requires StrictlyIncreasing(top) && line !in top
    ensures StrictlyIncreasing(AddLine(top, line))
  {
    AddLineSides(top, line);
    InsertIncreasing(top, line, InsertPos(top, line, Less), Less);
  }

  /** A strictly increasing list is determined by its lines. */
  lemma {:induction false} SameLinesSameList(a: seq<string>, b: seq<string>)
    requires StrictlyIncreasing(a) && StrictlyIncreasing(b) && forall l :: l in a <==> l in b
    ensures a == b
    decreases |a|
  {
    NoLinesNoList(a, b);
    if |a| > 0 {
      FirstIsLeast(a, b[0]);
      FirstIsLeast(b, a[0]);
      if Less(a[0], b[0]) && Less(b[0], a[0]) {
        LessTransitive(a[0], b[0], a[0]);
        LessIrreflexive(a[0]);
      }
      assert a[0] == b[0];
      TailMembers(a);
      TailMembers(b);
      SameLinesSameList(a[1..], b[1..]);
    }
  }

  lemma NoLinesNoList(a: seq<string>, b: seq<string>)
    requires forall l :: l in a <==> l in b
    ensures |a| == 0 <==> |b| == 0
  {
    assert |a| > 0 ==> a[0] in a;
    assert |b| > 0 ==> b[0] in b;
  }

  lemma FirstIsLeast(a: seq<string>, l: string)
    requires StrictlyIncreasing(a) && l in a
    ensures a[0] == l || Less(a[0], l)
  {
    var i :| 0 <= i < |a| && a[i] == l;
  }

  lemma TailMembers(a: seq<string>)
    requires StrictlyIncreasing(a) && |a| > 0
    ensures StrictlyIncreasing(a[1..])
    ensures forall l :: l in a[1..] <==> l in a && l != a[0]
  {
    AllDifferent(a);
    assert a == [a[0]] + a[1..];
    assert forall i :: 0 <= i < |a[1..]| ==> a[1..][i] == a[i + 1] != a[0];
  }
}
