/** DNS messages: a value view, and the objects whose fields the server rewrites in place. */
module Message {
  import opened Names

  const NOERROR: nat := 0
  const NXDOMAIN: nat := 3
  const TYPE_A: nat := 1
  const TYPE_AAAA: nat := 28

  datatype Question = Question(name: Name, qtype: nat, qclass: nat)

  /** The part of a record below its header. */
  datatype Data = A(addr: nat) | AAAA(addr6: nat) | CNAME(target: Name) | SOA(minttl: nat) | OPT | Other(rdata: string)

  datatype Record = Record(name: Name, ttl: nat, data: Data)

  datatype MsgView = MsgView(id: nat, rcode: nat, question: seq<Question>, answer: seq<Record>, ns: seq<Record>, extra: seq<Record>)

  /** A client's request: what the pipeline reads of it. */
  datatype Request = Request(id: nat, question: seq<Question>, dnssecOk: bool)

  /** The key a reply is cached under: lower-cased name, type and DNSSEC flag. */
  function CacheKey(typeName: nat -> string, q: Question, dnssecOk: bool): string {
    Lower(q.name) + "|" + typeName(q.qtype) + (if dnssecOk then "|1" else "|0")
  }

  /** A resource record; only its TTL is ever rewritten. */
  class RR {
    const name: Name
    const data: Data
    var ttl: nat

    constructor (r: Record)
      ensures View() == r
    {
      name, data, ttl := r.name, r.data, r.ttl;
    }

    function View(): Record
      reads this
    {
      Record(name, ttl, data)
    }
  }

  function Views(rrs: seq<RR>): (r: seq<Record>)
    reads rrs
    ensures |r| == |rrs| && forall i :: 0 <= i < |rrs| ==> r[i] == rrs[i].View()
  {
    seq(|rrs|, i requires 0 <= i < |rrs| reads rrs => rrs[i].View())
  }

  /** Fresh records with the given contents. */
  method Allocate(rs: seq<Record>) returns (rrs: seq<RR>)
    ensures fresh(set x | x in rrs)
    ensures Views(rrs) == rs
  {
    rrs := [];
    for i := 0 to |rs|
      invariant |rrs| == i && fresh(set x | x in rrs)
      invariant forall j :: 0 <= j < i ==> rrs[j].View() == rs[j]
    {
      var x := new RR(rs[i]);
      rrs := rrs + [x];
    }
  }

  class Msg {
    var id: nat
    var rcode: nat
    var question: seq<Question>
    var answer: seq<RR>
    var ns: seq<RR>
    var extra: seq<RR>

    /** The message object and its records. */
    ghost function Objects(): set<object>
      reads this
    {
      var records: set<object> := set x | x in answer + ns + extra;
      {this} + records
    }

    function View(): MsgView
      reads this, answer, ns, extra
    {
      MsgView(id, rcode, question, Views(answer), Views(ns), Views(extra))
    }

    constructor (v: MsgView)
      ensures View() == v && fresh(Objects())
    {
      var a := Allocate(v.answer);
      var n := Allocate(v.ns);
      var e := Allocate(v.extra);
      id, rcode, question, answer, ns, extra := v.id, v.rcode, v.question, a, n, e;
    }

    /** A deep copy. */
    method Copy() returns (m: Msg)
      ensures m.View() == View() && fresh(m.Objects())
    {
      m := new Msg(View());
    }
  }
}
