/**
 * The values `json.loads` hands back for an ingredient list, and Python's
 * `int()` applied to each of them.
 */
module Json {
  import opened Wrappers
  import opened PyText

  /** One element of a decoded JSON array: a number, a string or a boolean. */
  datatype JsonItem = JInt(n: int) | JStr(s: string) | JBool(b: bool)

  /** `int(x)` on a decoded JSON element: a number is itself, a string is parsed
      as `int()` parses it (None where Python raises ValueError), and a boolean is
      0 or 1. */
  function IntOf(x: JsonItem): (r: Option<int>)
    ensures x.JInt? ==> r == Some(x.n)
    ensures x.JStr? ==> r == ParseInt(x.s)
    ensures x.JBool? ==> r == Some(if x.b then 1 else 0)
  {
    match x
    case JInt(n) => Some(n)
    case JStr(s) => ParseInt(s)
    case JBool(b) => Some(if b then 1 else 0)
  }

  /** `[int(x) for x in items]`: every element converted in order, or None when
      some element does not convert. */
  function IntsOf(items: seq<JsonItem>): (r: Option<seq<int>>)
    ensures r.Some? <==> forall k :: 0 <= k < |items| ==> IntOf(items[k]).Some?
    ensures r.Some? ==> |r.value| == |items|
    ensures r.Some? ==> forall k :: 0 <= k < |items| ==> IntOf(items[k]) == Some(r.value[k])
  {
    if items == [] then Some([])
    else
      match IntOf(items[0])
      case None => None
      case Some(v) =>
        match IntsOf(items[1..])
        case None => None
        case Some(vs) => Some([v] + vs)
  }

  /** The decimal strings of a list of numbers, as JSON string elements. */
  function ShownItems(ns: seq<int>): (items: seq<JsonItem>)
    ensures |items| == |ns|
    ensures forall k :: 0 <= k < |ns| ==> items[k] == JStr(Show(ns[k]))
  {
    seq(|ns|, k requires 0 <= k < |ns| => JStr(Show(ns[k])))
  }

  /** No number of the list has more than `MaxStrDigits` decimal digits. */
  predicate WithinDigitLimit(ns: seq<int>) {
    forall k :: 0 <= k < |ns| ==> ShownDigits(ns[k]) <= MaxStrDigits
  }

  /** `int(str(n)) == n` lifted to lists: the decimal strings of a list of numbers
      convert back to the numbers themselves when none has more than
      `MaxStrDigits` digits, and the list is refused otherwise. */
  lemma {:induction false} IntsOfShown(ns: seq<int>)
    ensures IntsOf(ShownItems(ns)) == if WithinDigitLimit(ns) then Some(ns) else None
  {
    var items := ShownItems(ns);
    forall k | 0 <= k < |ns|
      ensures IntOf(items[k]) == if ShownDigits(ns[k]) <= MaxStrDigits then Some(ns[k]) else None
    {
      ParseIntOfShow(ns[k]);
    }
    var r := IntsOf(items);
    if WithinDigitLimit(ns) {
      assert r.Some?;
      assert forall k :: 0 <= k < |ns| ==> r.value[k] == ns[k];
      assert r.value == ns;
    } else {
      var k :| 0 <= k < |ns| && ShownDigits(ns[k]) > MaxStrDigits;
      assert IntOf(items[k]).None?;
    }
  }
}
