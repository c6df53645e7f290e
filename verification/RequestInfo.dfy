/** Questions about a framed request (src/request.cpp). */
module RequestInfo {
  import opened Text
  import opened Messages
  import opened HeadGrammar

  /** How many fields carry this name; names compare without case. */
  method HeaderCount(headers: seq<Header>, name: string) returns (count: nat)
    ensures count == |ValuesOf(headers, name)|
  {
    count := 0;
    for i := 0 to |headers|
      invariant count == |ValuesOf(headers[..i], name)|
    {
      assert headers[..i + 1][..i] == headers[..i];
      if IEquals(headers[i].name, name) {
        count := count + 1;
      }
    }
    assert headers[..|headers|] == headers;
  }

  lemma {:induction false} ValuesPrefix(headers: seq<Header>, k: nat, name: string)
    requires k <= |headers|
    ensures ValuesOf(headers[..k], name) <= ValuesOf(headers, name)
    decreases |headers|
  {
    hide IEquals;
    if k == |headers| {
      assert headers[..k] == headers;
    } else {
      var n := |headers| - 1;
      assert headers[..n][..k] == headers[..k];
      ValuesPrefix(headers[..n], k, name);
    }
  }

  /** The value of the first field with this name. */
  method FirstHeader(headers: seq<Header>, name: string) returns (value: Option<string>)
    ensures value == if ValuesOf(headers, name) == [] then None else Some(ValuesOf(headers, name)[0])
  {
    hide IEquals;
    for i := 0 to |headers|
      invariant ValuesOf(headers[..i], name) == []
    {
      assert headers[..i + 1][..i] == headers[..i];
      if IEquals(headers[i].name, name) {
        ValuesPrefix(headers, i + 1, name);
        return Some(headers[i].value);
      }
    }
    assert headers[..|headers|] == headers;
    value := None;
  }

  function Path(r: Request): string {
    r.target[..Find(r.target, '?', 0)]
  }

  function Query(r: Request): string {
    var mark := Find(r.target, '?', 0);
    if mark == |r.target| then "" else r.target[mark + 1..]
  }

  /** A target is its path, and its query after the first question mark. */
  lemma TargetSplits(r: Request)
    ensures '?' !in Path(r)
    ensures if '?' in r.target then r.target == Path(r) + "?" + Query(r) else Path(r) == r.target && Query(r) == ""
  {
  }

  // ---------------------------------------------------------------- persistence

  const CONNECTION := "Connection"

  /** `value[lo..hi]` is one element of a comma-separated list. */
  predicate IsElement(value: string, lo: nat, hi: nat) {
    && lo <= hi <= |value|
    && (lo == 0 || value[lo - 1] == ',') && (hi == |value| || value[hi] == ',')
    && forall k | lo <= k < hi :: value[k] != ','
  }

  /** Some element of the list, blanks around it aside, is `option`. */
  ghost predicate Lists(value: string, option: string) {
    exists lo: nat, hi: nat :: IsElement(value, lo, hi) && IEquals(Trim(value[lo..hi]), option)
  }

  /** Some Connection field lists `option`. */
  ghost predicate Asks(headers: seq<Header>, option: string) {
    exists i :: 0 <= i < |headers| && HeaderAsks(headers[i], option)
  }

  ghost predicate HeaderAsks(h: Header, option: string) {
    IEquals(h.name, "Connection") && Lists(h.value, option)
  }

  /** Section 9.3 of RFC 9112: close wins; otherwise 1.1 persists and 1.0 must ask to. */
  ghost predicate Persists(r: Request) {
    !Asks(r.headers, "close") && (r.version == Http11 || Asks(r.headers, "keep-alive"))
  }

  /** Some field is called `name`, case aside, and lists `option`. */
  ghost predicate FieldLists(headers: seq<Header>, name: string, option: string) {
    exists k: nat :: k < |headers| && IEquals(headers[k].name, name) && Lists(headers[k].value, option)
  }

  /**
   One field that lists close is enough to end the connection, however many there are; otherwise 1.1 persists, and 1.0
   does if some field lists keep-alive. So without a Connection field the version decides.
   */
  lemma PersistsIff(r: Request)
    ensures Persists(r) <==>
            && !FieldLists(r.headers, "Connection", "close")
            && (r.version == Http11 || FieldLists(r.headers, "Connection", "keep-alive"))
    ensures !HasField(r.headers, "Connection") ==> (Persists(r) <==> r.version == Http11)
  {
    hide Lists, IEquals;
    AsksIff(r.headers, "close");
    AsksIff(r.headers, "keep-alive");
  }

  lemma AsksIff(headers: seq<Header>, option: string)
    ensures Asks(headers, option) <==> FieldLists(headers, "Connection", option)
  {
    hide Lists, IEquals;
    if Asks(headers, option) {
      var i :| 0 <= i < |headers| && HeaderAsks(headers[i], option);
      assert IEquals(headers[i].name, "Connection");
    }
    if FieldLists(headers, "Connection", option) {
      var k: nat :| k < |headers| && IEquals(headers[k].name, "Connection") && Lists(headers[k].value, option);
      assert HeaderAsks(headers[k], option);
    }
  }

  /** `value` holds `element` between commas or its ends, with spaces and tabs around it. */
  ghost predicate HoldsElement(value: string, before: string, left: string, element: string, right: string,
                               after: string)
  {
    && value == before + left + element + right + after
    && (before == "" || before[|before| - 1] == ',') && (after == "" || after[0] == ',')
    && AllBlank(left) && AllBlank(right) && ',' !in element
  }

  /** A list holds an option, case aside, exactly if it stands there between commas, spaces and tabs. */
  lemma ListsIff(value: string, option: string)
    requires option != "" && Trimmed(option)
    ensures Lists(value, option) <==>
            exists before: string, left: string, element: string, right: string, after: string ::
              HoldsElement(value, before, left, element, right, after) && IEquals(element, option)
  {
    hide IEquals, HoldsElement;
    if Lists(value, option) {
      var lo: nat, hi: nat :| IsElement(value, lo, hi) && IEquals(Trim(value[lo..hi]), option);
      var left, right := ElementFound(value, lo, hi);
      assert HoldsElement(value, value[..lo], left, Trim(value[lo..hi]), right, value[hi..]);
    }
    forall before: string, left: string, element: string, right: string, after: string |
      HoldsElement(value, before, left, element, right, after) && IEquals(element, option)
      ensures Lists(value, option)
    {
      TrimmedAlike(element, option);
      ElementListed(value, before, left, element, right, after);
      var lo, hi := |before|, |value| - |after|;
      assert IsElement(value, lo, hi) && Trim(value[lo..hi]) == element;
    }
  }

  lemma TrimmedAlike(a: string, b: string)
    requires IEquals(a, b) && Trimmed(b)
    ensures Trimmed(a)
  {
  }

  lemma ElementFound(value: string, lo: nat, hi: nat) returns (left: string, right: string)
    requires IsElement(value, lo, hi)
    ensures HoldsElement(value, value[..lo], left, Trim(value[lo..hi]), right, value[hi..])
  {
    hide Trim;
    left, right := TrimDropsBlanks(value[lo..hi]);
    var element := Trim(value[lo..hi]);
    assert value == value[..lo] + value[lo..hi] + value[hi..];
    assert value[..lo] + (left + element + right) == value[..lo] + left + element + right;
    forall c | c in element ensures c in value[lo..hi] {
      assert value[lo..hi] == left + element + right;
    }
  }

  lemma ElementListed(value: string, before: string, left: string, element: string, right: string, after: string)
    requires HoldsElement(value, before, left, element, right, after) && Trimmed(element)
    ensures var lo, hi := |before|, |value| - |after|;
            lo <= hi && IsElement(value, lo, hi) && Trim(value[lo..hi]) == element
  {
    hide Trim;
    var lo, hi := |before|, |value| - |after|;
    var middle := left + element + right;
    assert value == before + middle + after;
    assert value[lo..hi] == middle;
    TrimIsTheCore(left, element, right);
    forall k | lo <= k < hi ensures value[k] != ',' {
      assert value[k] == middle[k - lo];
    }
    assert before != "" ==> value[lo - 1] == before[lo - 1];
    assert after != "" ==> value[hi] == after[0];
  }

  /** A value without commas lists what it is, case aside. */
  lemma ListsItself(value: string, option: string)
    requires ',' !in value && Trimmed(value)
    ensures Lists(value, option) <==> IEquals(value, option)
  {
    hide IEquals;
    assert value[0..|value|] == value;
    assert "" + value + "" == value;
    TrimIsTheCore("", value, "");
    hide Trim;
    assert IsElement(value, 0, |value|);
    forall lo: nat, hi: nat | IsElement(value, lo, hi) ensures lo == 0 && hi == |value| {
    }
  }

  /** The list element that starts at `lo`, and the rest of the list. */
  predicate ListsFrom(value: string, lo: nat, option: string)
    requires lo <= |value|
    decreases |value| - lo
  {
    if lo == |value| then false
    else
      var comma := Find(value, ',', lo);
      || IEquals(Trim(value[lo..comma]), option)
      || (comma < |value| && ListsFrom(value, comma + 1, option))
  }

  lemma {:induction false} ListsFromFinds(value: string, lo: nat, option: string) returns (a: nat, b: nat)
    requires lo <= |value| && (lo == 0 || value[lo - 1] == ',') && ListsFrom(value, lo, option)
    ensures IsElement(value, a, b) && IEquals(Trim(value[a..b]), option)
    decreases |value| - lo
  {
    hide Trim, IEquals;
    var comma := Find(value, ',', lo);
    if IEquals(Trim(value[lo..comma]), option) {
      a, b := lo, comma;
    } else {
      a, b := ListsFromFinds(value, comma + 1, option);
    }
  }

  lemma NotEmptyElement(element: string, option: string)
    requires IEquals(Trim(element), option) && option != ""
    ensures element != ""
  {
  }

  lemma {:induction false} ListsFromMisses(value: string, lo: nat, option: string, a: nat, b: nat)
    requires lo <= a && IsElement(value, a, b) && IEquals(Trim(value[a..b]), option) && option != ""
    ensures ListsFrom(value, lo, option)
    decreases |value| - lo
  {
    hide Trim, IEquals;
    var comma := Find(value, ',', lo);
    if a == lo {
      assert b == comma && value[lo..comma] == value[a..b];
      NotEmptyElement(value[a..b], option);
    } else {
      assert comma < a;
      ListsFromMisses(value, comma + 1, option, a, b);
    }
  }

  lemma ListsFromMeaning(value: string, option: string)
    requires option != ""
    ensures ListsFrom(value, 0, option) <==> Lists(value, option)
  {
    hide Trim, IEquals, ListsFrom;
    if ListsFrom(value, 0, option) {
      var a, b := ListsFromFinds(value, 0, option);
    }
    forall a: nat, b: nat | IsElement(value, a, b) && IEquals(Trim(value[a..b]), option)
      ensures ListsFrom(value, 0, option)
    {
      ListsFromMisses(value, 0, option, a, b);
    }
  }

  /** Does one Connection value list `close`, and does it list `keep-alive`? */
  method ScanOptions(value: string) returns (close: bool, keepAlive: bool)
    ensures close == Lists(value, "close") && keepAlive == Lists(value, "keep-alive")
  {
    hide Lists, IEquals, Trim;
    close, keepAlive := false, false;
    var pos := 0;
    while pos < |value|
      invariant pos <= |value|
      invariant ListsFrom(value, 0, "close") == (close || ListsFrom(value, pos, "close"))
      invariant ListsFrom(value, 0, "keep-alive") == (keepAlive || ListsFrom(value, pos, "keep-alive"))
    {
      var comma := Find(value, ',', pos);
      var option := TrimWhitespace(value[pos..comma]);
      if IEquals(option, "close") {
        close := true;
      }
      if IEquals(option, "keep-alive") {
        keepAlive := true;
      }
      pos := if comma == |value| then |value| else comma + 1;
    }
    ListsFromMeaning(value, "close");
    ListsFromMeaning(value, "keep-alive");
  }

  method WantsKeepAlive(r: Request) returns (persists: bool)
    ensures persists == Persists(r)
  {
    hide Lists, IEquals;
    var close, keepAlive := false, false;
    for i := 0 to |r.headers|
      invariant close == exists k :: 0 <= k < i && HeaderAsks(r.headers[k], "close")
      invariant keepAlive == exists k :: 0 <= k < i && HeaderAsks(r.headers[k], "keep-alive")
    {
      if IEquals(r.headers[i].name, CONNECTION) {
        var c, k := ScanOptions(r.headers[i].value);
        close, keepAlive := close || c, keepAlive || k;
      }
    }
    persists := !close && (r.version == Http11 || keepAlive);
  }
}
