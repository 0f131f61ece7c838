/** The parsed JSON tree the plugins read provider replies from, and the
    lookups fastjson performs on it. A path of keys is followed one step at a
    time: on an object the step is a member name (the first member with that
    name wins), on an array it is a decimal index read with `strconv.Atoi`,
    on anything else the lookup fails. A failed lookup is no error to the
    caller: `GetArray` then reads as the empty array and `GetString` as the
    empty string. */
module Json {
  import opened Wrappers
  import GoInt

  datatype JVal =
    | JNull
    | JBool(b: bool)
    | JNum(raw: string)
    | JStr(s: string)
    | JArr(items: seq<JVal>)
    | JObj(members: seq<(string, JVal)>)

  /** The value of the first member named `key` (fastjson `Object.Get`). */
  function Member(members: seq<(string, JVal)>, key: string): (r: Option<JVal>)
    ensures r.None? <==> forall i :: 0 <= i < |members| ==> members[i].0 != key
    ensures r.Some? ==> exists i :: 0 <= i < |members| && members[i] == (key, r.value)
  {
    if |members| == 0 then None
    else if members[0].0 == key then Some(members[0].1)
    else
      var r := Member(members[1..], key);
      assert r.Some? ==> exists i :: 0 <= i < |members[1..]| && members[1..][i] == (key, r.value);
      r
  }

  /** Members that come before the first one named `key` do not hide it, and
      members that come after it are never consulted. */
  lemma {:induction false} MemberFirstMatch(before: seq<(string, JVal)>, key: string, v: JVal, after: seq<(string, JVal)>)
    requires forall i :: 0 <= i < |before| ==> before[i].0 != key
    ensures Member(before + [(key, v)] + after, key) == Some(v)
  {
    if |before| > 0 {
      assert (before + [(key, v)] + after)[1..] == before[1..] + [(key, v)] + after;
      MemberFirstMatch(before[1..], key, v, after);
    }
  }

  /** fastjson `Value.Get(keys...)`. */
  function Get(v: JVal, path: seq<string>): Option<JVal>
    decreases |path|
  {
    if |path| == 0 then Some(v)
    else match v
      case JObj(ms) =>
        (match Member(ms, path[0])
         case None => None
         case Some(c) => Get(c, path[1..]))
      case JArr(items) =>
        (match GoInt.Atoi(path[0])
         case Some(n) => if 0 <= n < |items| then Get(items[n], path[1..]) else None
         case None => None)
      case _ => None
  }

  /** Where a lookup fails: the empty path is the value itself; a step
      fails on a scalar, on an object without a member of that name, and on
      an array when the segment is not a numeral `Atoi` accepts or its
      value is out of bounds. */
  lemma GetFails(v: JVal, path: seq<string>)
    ensures |path| == 0 ==> Get(v, path) == Some(v)
    ensures |path| > 0 && !v.JObj? && !v.JArr? ==> Get(v, path) == None
    ensures |path| > 0 && v.JObj? && Member(v.members, path[0]).None? ==> Get(v, path) == None
    ensures |path| > 0 && v.JArr? && GoInt.Atoi(path[0]).None? ==> Get(v, path) == None
    ensures (|path| > 0 && v.JArr? && GoInt.Atoi(path[0]).Some? && !(0 <= GoInt.Atoi(path[0]).value < |v.items|))
            ==> Get(v, path) == None
  {
  }

  /** Following a path in two legs is following it at once: a lookup
      along `p + q` is the lookup along `q` from wherever `p` leads, and it
      fails whenever `p` does. */
  lemma {:induction false} GetAppend(v: JVal, p: seq<string>, q: seq<string>)
    ensures Get(v, p + q) == if Get(v, p).Some? then Get(Get(v, p).value, q) else None
    decreases |p|
  {
    if |p| == 0 {
      assert p + q == q;
    } else {
      assert (p + q)[0] == p[0];
      assert (p + q)[1..] == p[1..] + q;
      match v {
        case JObj(ms) =>
          if Member(ms, p[0]).Some? {
            GetAppend(Member(ms, p[0]).value, p[1..], q);
          }
        case JArr(items) =>
          var n := GoInt.Atoi(p[0]);
          if n.Some? && 0 <= n.value < |items| {
            GetAppend(items[n.value], p[1..], q);
          }
        case _ =>
      }
    }
  }

  /** fastjson `Value.GetArray(keys...)`: a missing value or one that is not
      an array reads as the empty array. */
  function GetArray(v: JVal, path: seq<string>): (r: seq<JVal>)
    ensures Get(v, path).Some? && Get(v, path).value.JArr? ==> r == Get(v, path).value.items
    ensures !(Get(v, path).Some? && Get(v, path).value.JArr?) ==> r == []
  {
    match Get(v, path)
    case Some(JArr(items)) => items
    case _ => []
  }

  /** fastjson `Value.GetStringBytes(keys...)` converted with `string(...)`:
      a missing value or one that is not a string reads as "". */
  function GetString(v: JVal, path: seq<string>): (r: string)
    ensures Get(v, path).Some? && Get(v, path).value.JStr? ==> r == Get(v, path).value.s
    ensures !(Get(v, path).Some? && Get(v, path).value.JStr?) ==> r == ""
  {
    match Get(v, path)
    case Some(JStr(s)) => s
    case _ => ""
  }

  /** The array index segment "0" selects the first element. */
  lemma IndexZero(items: seq<JVal>, rest: seq<string>)
    requires |items| > 0
    ensures Get(JArr(items), ["0"] + rest) == Get(items[0], rest)
  {
    assert GoInt.IsDecimal("0") && GoInt.DecimalOf("0") == 0;
    assert (["0"] + rest)[1..] == rest;
  }

  /** A path through the first item of the array at `key` continues in
      that item. */
  lemma FirstItem(v: JVal, key: string, rest: seq<string>)
    requires |GetArray(v, [key])| > 0
    ensures Get(v, [key, "0"] + rest) == Get(GetArray(v, [key])[0], rest)
  {
    assert [key, "0"] + rest == [key] + (["0"] + rest);
    GetAppend(v, [key], ["0"] + rest);
    IndexZero(GetArray(v, [key]), rest);
  }

  /** One object step: a path through an object whose first member of that
      name is `v` continues in `v`. */
  lemma FieldStep(before: seq<(string, JVal)>, key: string, v: JVal, after: seq<(string, JVal)>, rest: seq<string>)
    requires forall i :: 0 <= i < |before| ==> before[i].0 != key
    ensures Get(JObj(before + [(key, v)] + after), [key] + rest) == Get(v, rest)
  {
    MemberFirstMatch(before, key, v, after);
    assert ([key] + rest)[1..] == rest;
  }
}
