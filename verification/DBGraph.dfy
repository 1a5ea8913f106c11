/** The graph of nodes and edges, the keys under which slots of nodes are tracked, and the
    scanner for slot specifications. */
module DBGraphs {

  import opened TagHistory

  // ---------------------------------------------------------------- numbers

  function Digit(d: nat): char
    requires d < 10
  {
    "0123456789"[d]
  }

  predicate IsDigit(c: char) { '0' <= c <= '9' }

  function DigitValue(c: char): nat
    requires IsDigit(c)
  {
    c as int - '0' as int
  }

  /** A number in decimal, without leading zeros. */
  function Number(n: nat): (s: string)
    ensures s != [] && forall i :: 0 <= i < |s| ==> IsDigit(s[i])
  {
    if n < 10 then [Digit(n)] else Number(n / 10) + [Digit(n % 10)]
  }

  /** The value of a run of digits. */
  function NumberRead(s: string): nat
    requires forall i :: 0 <= i < |s| ==> IsDigit(s[i])
  {
    if s == [] then 0 else 10 * NumberRead(s[..|s|-1]) + DigitValue(s[|s|-1])
  }

  lemma {:induction false} NumberValue(n: nat)
    ensures NumberRead(Number(n)) == n
  {
    if n >= 10 {
      NumberValue(n / 10);
      assert Number(n)[..|Number(n)|-1] == Number(n / 10);
    } else {
      assert Number(n)[..0] == [];
    }
  }

  // ---------------------------------------------------------------- keys

  /** A name without instance is instance 0. */
  function NormalizeNodeName(name: string): string {
    if '{' in name then name else name + "{0}"
  }

  /** The list of slots, comma separated. */
  function Joined(list: seq<nat>): string {
    if list == [] then ""
    else if |list| == 1 then Number(list[0])
    else Number(list[0]) + "," + Joined(list[1..])
  }

  /** What the key of a slot adds to the name of its node. */
  function SlotPart(list: seq<nat>): string {
    if list == [] then "" else "{" + Joined(list) + "}"
  }

  /** The key of a slot of a node. */
  function SlotKey(name: string, list: seq<nat>): string {
    NormalizeNodeName(name) + SlotPart(list)
  }

  lemma {:induction false} JoinedAppend(list: seq<nat>, n: nat)
    ensures Joined(list + [n]) == Joined(list) + (if list == [] then "" else ",") + Number(n)
  {
    hide Joined, Number;
    JoinedStep(list);
    JoinedStep(list + [n]);
    if list != [] {
      JoinedAppend(list[1..], n);
      JoinedStep(list[1..]);
      assert (list + [n])[1..] == list[1..] + [n];
    }
  }

  lemma JoinedStep(list: seq<nat>)
    ensures list == [] ==> Joined(list) == ""
    ensures |list| == 1 ==> Joined(list) == Number(list[0])
    ensures |list| > 1 ==> Joined(list) == Number(list[0]) + "," + Joined(list[1..])
  {
  }

  /** Prints the key of a slot of a node. */
  method SlotedNodeName(name: string, list: seq<nat>) returns (key: string)
    ensures key == SlotKey(name, list)
  {
    hide Joined, Number;
    var nname := NormalizeNodeName(name);
    if |list| == 0 {
      return nname;
    }
    var slot := "{";
    assert Joined(list[..0]) == "" by { JoinedEmpty(); }
    for i := 0 to |list|
      invariant slot == "{" + Joined(list[..i]) + (if 0 < i < |list| then "," else "")
    {
      assert list[..i+1] == list[..i] + [list[i]];
      JoinedAppend(list[..i], list[i]);
      slot := slot + Number(list[i]);
      if i < |list| - 1 {
        slot := slot + ",";
      }
    }
    assert list[..|list|] == list;
    slot := slot + "}";
    key := nname + slot;
  }

  lemma JoinedEmpty()
    ensures Joined([]) == ""
  {
  }

  /** The name that addNode gives to an instance of a node. */
  function NodeName(base: string, instance: nat): string {
    base + "{" + Number(instance) + "}"
  }

  /** The part of s before the first c. */
  function Before(s: string, c: char): (r: string)
    ensures |r| <= |s| && (c in s <==> |r| < |s|)
  {
    if s == [] || s[0] == c then [] else [s[0]] + Before(s[1..], c)
  }

  lemma {:induction false} BeforeFirst(a: string, c: char, b: string)
    requires c !in a
    ensures Before(a + [c] + b, c) == a
  {
    if a == [] {
      assert (a + [c] + b)[0] == c;
    } else {
      BeforeFirst(a[1..], c, b);
      assert (a + [c] + b)[1..] == a[1..] + [c] + b;
    }
  }

  lemma {:induction false} BeforeNone(a: string, c: char)
    requires c !in a
    ensures Before(a, c) == a
  {
    if a != [] {
      BeforeNone(a[1..], c);
    }
  }

  lemma {:induction false} JoinedPlain(list: seq<nat>)
    ensures '{' !in Joined(list) && '}' !in Joined(list)
    ensures list != [] ==> Joined(list) != []
  {
    if |list| > 1 {
      JoinedPlain(list[1..]);
    }
  }

  /** The first number of a list, and how much of the text it takes. */
  lemma HeadJoined(list: seq<nat>)
    requires list != []
    ensures Before(Joined(list), ',') == Number(list[0])
    ensures |list| == 1 <==> |Joined(list)| == |Number(list[0])|
    ensures |list| > 1 ==> Joined(list)[|Number(list[0])|+1..] == Joined(list[1..])
  {
    if |list| == 1 {
      BeforeNone(Number(list[0]), ',');
    } else {
      BeforeFirst(Number(list[0]), ',', Joined(list[1..]));
    }
  }

  /** Different slot lists print differently. */
  lemma {:induction false} JoinedInjective(a: seq<nat>, b: seq<nat>)
    requires a != [] && b != [] && Joined(a) == Joined(b)
    ensures a == b
  {
    hide Joined, Number, NumberRead, Before;
    HeadJoined(a);
    HeadJoined(b);
    NumberValue(a[0]);
    NumberValue(b[0]);
    if |a| > 1 {
      JoinedInjective(a[1..], b[1..]);
      assert a == [a[0]] + a[1..] && b == [b[0]] + b[1..];
    }
  }

  /** A node name ends at its first closing brace, whatever follows. */
  lemma NameOf(base: string, instance: nat, rest: string)
    requires '{' !in base && '}' !in base
    ensures Before(NodeName(base, instance) + rest, '}') == base + "{" + Number(instance)
    ensures NormalizeNodeName(NodeName(base, instance)) == NodeName(base, instance)
  {
    var a := base + "{" + Number(instance);
    assert NodeName(base, instance) + rest == a + ['}'] + rest;
    BeforeFirst(a, '}', rest);
    assert NodeName(base, instance)[|base|] == '{';
  }

  lemma SlotPartInjective(a: seq<nat>, b: seq<nat>)
    requires SlotPart(a) == SlotPart(b)
    ensures a == b
  {
    hide Joined;
    JoinedPlain(a);
    JoinedPlain(b);
    if a != [] && b != [] {
      assert SlotPart(a)[1..|SlotPart(a)|-1] == Joined(a);
      assert SlotPart(b)[1..|SlotPart(b)|-1] == Joined(b);
      JoinedInjective(a, b);
    }
  }

  lemma StemInjective(base: string, instance: nat, base': string, instance': nat)
    requires '{' !in base && '{' !in base'
    requires base + "{" + Number(instance) == base' + "{" + Number(instance')
    ensures base == base' && instance == instance'
  {
    hide Number, Before, NumberRead;
    BeforeFirst(base, '{', Number(instance));
    BeforeFirst(base', '{', Number(instance'));
    assert (base + "{" + Number(instance))[|base|+1..] == Number(instance);
    assert (base' + "{" + Number(instance'))[|base'|+1..] == Number(instance');
    NumberValue(instance);
    NumberValue(instance');
  }

  /** Keys are injective: different nodes or different slots never share a key. */
  lemma KeysInjective(base: string, instance: nat, list: seq<nat>, base': string, instance': nat, list': seq<nat>)
    requires '{' !in base && '}' !in base && '{' !in base' && '}' !in base'
    ensures SlotKey(NodeName(base, instance), list) == SlotKey(NodeName(base', instance'), list')
       <==> base == base' && instance == instance' && list == list'
  {
    hide Number, Before, NumberRead, Joined;
    var name, name' := NodeName(base, instance), NodeName(base', instance');
    NameOf(base, instance, SlotPart(list));
    NameOf(base', instance', SlotPart(list'));
    if SlotKey(name, list) == SlotKey(name', list') {
      StemInjective(base, instance, base', instance');
      assert (name + SlotPart(list))[|name|..] == SlotPart(list);
      assert (name + SlotPart(list'))[|name|..] == SlotPart(list');
      SlotPartInjective(list, list');
    }
  }

  /** How keys are spelled: name, instance in braces, and the slots in braces and with commas. A name
      without instance is that of instance 0. */
  lemma KeySpelled(base: string, instance: nat, list: seq<nat>)
    requires '{' !in base
    ensures SlotKey(NodeName(base, instance), [])
         == NodeName(base, instance) == base + "{" + Number(instance) + "}"
    ensures list != [] ==>
              SlotKey(NodeName(base, instance), list)
              == base + "{" + Number(instance) + "}" + "{" + Joined(list) + "}"
    ensures NormalizeNodeName(base) == NodeName(base, 0) && SlotKey(base, list) == SlotKey(NodeName(base, 0), list)
  {
    hide Joined, Number;
    BraceInside(base, Number(instance));
    BraceInside(base, Number(0));
    NumbersSpelled();
    assert NodeName(base, 0) == base + "{" + "0" + "}" == base + "{0}";
    var name := NodeName(base, instance);
    assert name + "" == name;
    assert name + ("{" + Joined(list) + "}") == name + "{" + Joined(list) + "}";
  }

  lemma BraceInside(base: string, n: string)
    ensures '{' in base + "{" + n + "}"
  {
    assert (base + "{" + n + "}")[|base|] == '{';
  }

  /** An example: slots 1 and 20 of a node. */
  lemma FetchSpelled()
    ensures SlotKey("fetch", [1, 20]) == "fetch{0}{1,20}" && Numbers("1,20") == Some([1, 20])
  {
    hide *;
    NumbersSpelled();
    assert [1] + [20] == [1, 20];
    JoinedAppend([1], 20);
    KeySpelled("fetch", 0, [1, 20]);
    ScanJoined([1, 20]);
    SmallUint();
    assert Joined([1, 20]) == "1" + "," + "20" == "1,20";
    assert SlotKey("fetch", [1, 20]) == "fetch" + "{" + "0" + "}" + "{" + "1,20" + "}" == "fetch{0}{1,20}";
  }

  lemma NumbersSpelled()
    ensures Number(0) == "0" && Joined([1]) == Number(1) == "1" && Number(20) == "20"
  {
    assert Number(2) == "2" && Number(0) == "0";
  }

  lemma SmallUint()
    ensures AllUint([1, 20])
  {
  }

  // ---------------------------------------------------------------- the scanner

  const MAX_UINT := 0xFFFF_FFFF

  /** The length of the run of digits at the start of s. */
  function RunLength(s: string): (n: nat)
    ensures n <= |s| && (n < |s| ==> !IsDigit(s[n]))
    ensures forall i :: 0 <= i < n ==> IsDigit(s[i])
  {
    if s == [] || !IsDigit(s[0]) then 0 else 1 + RunLength(s[1..])
  }

  /** All the numbers in s, unless one of them is too large. */
  function Numbers(s: string): Option<seq<nat>>
    decreases |s|
  {
    if s == [] then Some([])
    else if !IsDigit(s[0]) then Numbers(s[1..])
    else
      var n := RunLength(s);
      if NumberRead(s[..n]) > MAX_UINT then None
      else match Numbers(s[n..])
           case None => None
           case Some(list) => Some([NumberRead(s[..n])] + list)
  }

  /** The first digit at or after pos, or |s|. */
  method SearchDigit(s: string, pos: nat) returns (p: nat)
    requires pos <= |s|
    ensures pos <= p <= |s| && (p < |s| ==> IsDigit(s[p]))
    ensures Numbers(s[pos..]) == Numbers(s[p..])
  {
    p := pos;
    while p < |s| && !IsDigit(s[p])
      invariant pos <= p <= |s| && Numbers(s[pos..]) == Numbers(s[p..])
    {
      assert s[p..][1..] == s[p+1..];
      p := p + 1;
    }
  }

  /** The numbers that a slot specification "name;slots" holds after its semicolon. */
  function SlotSpec(str: string): Option<seq<nat>> {
    var name := Before(str, ';');
    if ';' in str then Numbers(str[|name|+1..]) else Some([])
  }

  /** What is still to be read follows what has been read. */
  function Following(list: seq<nat>, rest: Option<seq<nat>>): Option<seq<nat>> {
    match rest case None => None case Some(l) => Some(list + l)
  }

  lemma NothingLeft(list: seq<nat>, rest: Option<seq<nat>>)
    ensures Following([], rest) == rest
    ensures Following(list, Numbers("")) == Some(list)
  {
    assert list + [] == list;
    match rest
    case None =>
    case Some(l) => assert [] + l == l;
  }

  /** One round of the scanner: a number and then the rest. */
  lemma ScanStep(list: seq<nat>, s: string)
    requires s != [] && IsDigit(s[0])
    ensures RunLength(s) > 0
    ensures NumberRead(s[..RunLength(s)]) > MAX_UINT ==> Following(list, Numbers(s)) == None
    ensures NumberRead(s[..RunLength(s)]) <= MAX_UINT ==>
              Following(list, Numbers(s)) ==
              Following(list + [NumberRead(s[..RunLength(s)])], Numbers(s[RunLength(s)..]))
  {
    hide NumberRead;
    var n := RunLength(s);
    var dim := NumberRead(s[..n]);
    match Numbers(s[n..])
    case None =>
    case Some(l) => assert list + ([dim] + l) == list + [dim] + l;
  }

  /** The scan of a slot specification. */
  method ScanNumbers(spec: string) returns (ok: bool, list: seq<nat>)
    ensures ok == Numbers(spec).Some?
    ensures ok ==> list == Numbers(spec).value
  {
    hide *;
    list := [];
    var pos := SearchDigit(spec, 0);
    assert spec[0..] == spec;
    NothingLeft(list, Numbers(spec));
    while pos < |spec|
      invariant pos <= |spec| && (pos < |spec| ==> IsDigit(spec[pos]))
      invariant Numbers(spec) == Following(list, Numbers(spec[pos..]))
      decreases |spec| - pos
    {
      var rest := spec[pos..];
      var n := RunLength(rest);
      var dim := NumberRead(rest[..n]);
      ScanStep(list, rest);
      if dim > MAX_UINT {
        return false, list;
      }
      assert rest[n..] == spec[pos+n..];
      list := list + [dim];
      pos := SearchDigit(spec, pos + n);
    }
    assert spec[pos..] == "";
    NothingLeft(list, Numbers(spec));
    ok := true;
  }

  /** Reads "name;slots": the node name, and the numbers after the semicolon in order. */
  method DecodeNodeSlot(str: string) returns (ok: bool, name: string, list: seq<nat>)
    ensures name == NormalizeNodeName(Before(str, ';'))
    ensures ok == SlotSpec(str).Some?
    ensures ok ==> list == SlotSpec(str).value
  {
    hide Numbers, Before;
    var nodename := Before(str, ';');
    name := NormalizeNodeName(nodename);
    if |nodename| == |str| {
      return true, name, [];
    }
    ok, list := ScanNumbers(str[|nodename|+1..]);
  }

  lemma {:induction false} RunOf(a: string, b: string)
    requires (forall i :: 0 <= i < |a| ==> IsDigit(a[i])) && (b != [] ==> !IsDigit(b[0]))
    ensures RunLength(a + b) == |a|
  {
    if a == [] {
      assert a + b == b;
    } else {
      RunOf(a[1..], b);
      assert (a + b)[1..] == a[1..] + b;
    }
  }

  /** Any character that is no digit separates numbers: the numbers before it come before those behind. */
  lemma {:induction false} NumbersApart(a: string, c: char, b: string)
    requires !IsDigit(c)
    ensures Numbers(a + [c] + b)
         == match Numbers(a) case None => None case Some(list) => Following(list, Numbers(b))
    decreases |a|
  {
    hide NumberRead;
    var s := a + [c] + b;
    NothingLeft([], Numbers(b));
    if a == [] {
      assert s[1..] == b;
    } else if !IsDigit(a[0]) {
      NumbersApart(a[1..], c, b);
      assert s[1..] == a[1..] + [c] + b;
    } else {
      var n := RunLength(a);
      NumbersApart(a[n..], c, b);
      assert s == a[..n] + (a[n..] + [c] + b);
      RunOf(a[..n], a[n..] + [c] + b);
      assert s[..n] == a[..n] && s[n..] == a[n..] + [c] + b;
      if NumberRead(a[..n]) <= MAX_UINT && Numbers(a[n..]).Some? && Numbers(b).Some? {
        var x, l, m := [NumberRead(a[..n])], Numbers(a[n..]).value, Numbers(b).value;
        assert x + (l + m) == x + l + m;
      }
    }
  }

  /** All numbers of the list have 32 bits. */
  predicate AllUint(list: seq<nat>) {
    forall i :: 0 <= i < |list| ==> list[i] <= 0xFFFF_FFFF
  }

  lemma ScanNumber(n: nat)
    ensures Numbers(Number(n)) == if n <= 0xFFFF_FFFF then Some([n]) else None
  {
    hide Number, NumberRead;
    var s := Number(n);
    assert s + "" == s && s[..|s|] == s && s[|s|..] == "";
    RunOf(s, "");
    NumberValue(n);
    assert IsDigit(s[0]);
    assert [n] + [] == [n];
  }

  /** The scanner inverts printing, and refuses a list with a number of more than 32 bits. */
  lemma {:induction false} ScanJoined(list: seq<nat>)
    ensures Numbers(Joined(list)) == if AllUint(list) then Some(list) else None
  {
    if list != [] {
      hide Number, Numbers;
      ScanNumber(list[0]);
      assert list == [list[0]] + list[1..];
      assert AllUint(list) <==> list[0] <= 0xFFFF_FFFF && AllUint(list[1..]);
      if |list| > 1 {
        ScanJoined(list[1..]);
        NumbersApart(Number(list[0]), ',', Joined(list[1..]));
        assert Joined(list) == Number(list[0]) + [','] + Joined(list[1..]);
      }
    }
  }

  /** Decoding "name;slots" gives back the name and the slots; it is refused exactly when a slot has more
      than 32 bits. */
  lemma DecodePrinted(name: string, list: seq<nat>)
    requires ';' !in name
    ensures Before(name + ";" + Joined(list), ';') == name
    ensures SlotSpec(name + ";" + Joined(list)) == if AllUint(list) then Some(list) else None
  {
    hide Joined, Before, Numbers;
    BeforeFirst(name, ';', Joined(list));
    ScanJoined(list);
    var str := name + ";" + Joined(list);
    assert str[|name|] == ';' && str[|name|+1..] == Joined(list);
  }

  // ---------------------------------------------------------------- the graph

  datatype DBGraphNode = DBGraphNode(name: string, parent: nat, instance: nat)

  datatype DBGraphEdge = DBGraphEdge(source: nat, destination: nat, bandwidth: nat, latency: nat, name: string)

  /** Both node lists hold the same nodes, under their id and under their name. */
  ghost predicate SameNodes(byId: map<nat, DBGraphNode>, byName: map<string, DBGraphNode>) {
    && (forall id :: id in byId ==> byId[id].name in byName && byName[byId[id].name] == byId[id])
    && (forall name :: name in byName ==> byName[name].name == name && byName[name] in byId.Values)
  }

  /** A name belongs to one node only. */
  ghost predicate NamesDistinct(byId: map<nat, DBGraphNode>) {
    forall id, id' :: id in byId && id' in byId && id != id' ==> byId[id].name != byId[id'].name
  }

  lemma NodeAdded(byId: map<nat, DBGraphNode>, byName: map<string, DBGraphNode>, nodeId: nat, node: DBGraphNode)
    requires SameNodes(byId, byName) && NamesDistinct(byId)
    requires nodeId !in byId && node.name !in byName
    ensures SameNodes(byId[nodeId := node], byName[node.name := node])
    ensures NamesDistinct(byId[nodeId := node])
  {
    var byId', byName' := byId[nodeId := node], byName[node.name := node];
    assert forall id :: id in byId ==> byId[id].name != node.name;
    forall name | name in byName'
      ensures byName'[name].name == name && byName'[name] in byId'.Values
    {
      if name == node.name {
        assert nodeId in byId' && byId'[nodeId] == node;
      } else {
        var id :| id in byId && byId[id] == byName[name];
        assert id in byId' && byId'[id] == byName[name];
      }
    }
  }

  /** The nodes and edges of the traced system. */
  class DBGraph {
    var dbgnList: map<nat, DBGraphNode>
    var dbgnListByName: map<string, DBGraphNode>
    var dbgeList: map<nat, DBGraphEdge>

    /** The two node lists agree, names are distinct, and edges join known nodes. */
    ghost predicate Valid()
      reads this
    {
      && SameNodes(dbgnList, dbgnListByName)
      && NamesDistinct(dbgnList)
      && (forall e :: e in dbgeList ==> dbgeList[e].source in dbgnList && dbgeList[e].destination in dbgnList)
    }

    constructor ()
      ensures Valid() && dbgnList == map[] && dbgeList == map[]
    {
      dbgnList, dbgnListByName, dbgeList := map[], map[], map[];
    }

    /** A node is added unless its id or its name is taken. */
    method AddNode(name: string, nodeId: nat, parentId: nat, instance: nat) returns (ok: bool)
      requires Valid()
      modifies this
      ensures Valid() && dbgeList == old(dbgeList)
      ensures ok <==>
                && nodeId !in old(dbgnList)
                && forall id :: id in old(dbgnList) ==> old(dbgnList)[id].name != NodeName(name, instance)
      ensures dbgnList == if ok then old(dbgnList)[nodeId := DBGraphNode(NodeName(name, instance), parentId, instance)]
                          else old(dbgnList)
    {
      hide NodeName;
      var nodeName := NodeName(name, instance);
      if nodeId in dbgnList || nodeName in dbgnListByName {
        return false;
      }
      var node := DBGraphNode(nodeName, parentId, instance);
      NodeAdded(dbgnList, dbgnListByName, nodeId, node);
      dbgnList := dbgnList[nodeId := node];
      dbgnListByName := dbgnListByName[nodeName := node];
      ok := true;
    }

    /** An edge is added unless its id is taken or one of its ends is unknown. */
    method AddEdge(source: nat, destination: nat, edgeId: nat, bandwidth: nat, latency: nat, name: string)
      returns (ok: bool)
      requires Valid()
      modifies this`dbgeList
      ensures Valid()
      ensures ok <==> edgeId !in old(dbgeList) && source in dbgnList && destination in dbgnList
      ensures dbgeList == if ok then old(dbgeList)[edgeId := DBGraphEdge(source, destination, bandwidth, latency, name)]
                          else old(dbgeList)
    {
      if edgeId in dbgeList || source !in dbgnList || destination !in dbgnList {
        return false;
      }
      dbgeList := dbgeList[edgeId := DBGraphEdge(source, destination, bandwidth, latency, name)];
      ok := true;
    }

    /** The bandwidth of an edge as a signed number, -1 for an unknown edge. */
    function GetEdgeBandwidth(edgeId: nat): (r: int)
      reads this
      ensures edgeId !in dbgeList ==> r == -1
      ensures edgeId in dbgeList && dbgeList[edgeId].bandwidth < 0x1_0000_0000 ==>
                var b := dbgeList[edgeId].bandwidth;
                r == if b < 0x8000_0000 then b else b - 0x1_0000_0000
    {
      if edgeId in dbgeList then Signed(dbgeList[edgeId].bandwidth) else -1
    }
  }

  /** A 32-bit pattern read as a signed number. */
  function Signed(n: nat): int {
    var m := n % 0x1_0000_0000;
    if m < 0x8000_0000 then m else m - 0x1_0000_0000
  }
}
