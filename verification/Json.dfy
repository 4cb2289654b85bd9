/** JSON values. An object is its own enumerable members in order; strings are sequences of Unicode scalar values. */
module Json {
  datatype Json =
    | Null
    | Bool(b: bool)
    | Num(text: string)
    | Str(s: string)
    | Arr(items: seq<Json>)
    | Obj(members: seq<Member>)
  datatype Member = Member(key: string, value: Json)

  predicate HasKey(ms: seq<Member>, k: string) {
    exists i :: 0 <= i < |ms| && ms[i].key == k
  }

  function Lookup(ms: seq<Member>, k: string): (v: Json)
    requires HasKey(ms, k)
    ensures exists i :: 0 <= i < |ms| && ms[i].key == k && ms[i].value == v
  {
    if ms[0].key == k then ms[0].value
    else
      assert HasKey(ms[1..], k) by {
        var i :| 0 <= i < |ms| && ms[i].key == k;
        assert ms[1..][i-1].key == k;
      }
      var v := Lookup(ms[1..], k);
      assert exists i :: 0 <= i < |ms| && ms[i].key == k && ms[i].value == v by {
        var i :| 0 <= i < |ms[1..]| && ms[1..][i].key == k && ms[1..][i].value == v;
        assert ms[i+1].key == k;
      }
      v
  }

  predicate DistinctKeys(ms: seq<Member>) {
    forall i, j :: 0 <= i < j < |ms| ==> ms[i].key != ms[j].key
  }

  lemma {:induction false} SameKeySameIndex(ms: seq<Member>, i: nat, j: nat)
    requires i < |ms| && j < |ms| && DistinctKeys(ms) && ms[i].key == ms[j].key
    ensures i == j
  {
  }

  lemma {:induction false} LookupAt(ms: seq<Member>, i: nat)
    requires i < |ms| && DistinctKeys(ms)
    ensures HasKey(ms, ms[i].key) && Lookup(ms, ms[i].key) == ms[i].value
  {
    var v := Lookup(ms, ms[i].key);
    var j :| 0 <= j < |ms| && ms[j].key == ms[i].key && ms[j].value == v;
    SameKeySameIndex(ms, i, j);
  }

  /** The characters a printed number consists of. */
  predicate NumChar(c: char) { '0' <= c <= '9' || c in "+-.eE" }

  lemma {:induction false} NumCharsOneByOne(c: char)
    ensures NumChar(c) <==> c in "0123456789+-.eE"
  {
  }

  ghost predicate WellFormed(v: Json) {
    match v
    case Num(text) => text != "" && forall c :: c in text ==> NumChar(c)
    case Arr(items) => forall i :: 0 <= i < |items| ==> WellFormed(items[i])
    case Obj(ms) => DistinctKeys(ms) && forall i :: 0 <= i < |ms| ==> WellFormed(ms[i].value)
    case _ => true
  }
}
