/**
 * The extension helpers: query-parameter appending, copying a header
 * dictionary into a request, and inserting into a dictionary that may be null.
 */
module Extensions {
  import opened Wrappers
  import opened Strings
  import opened Framework

  /**
   * `self.AddParameter(name, value)`: appends "&name=value" by string
   * interpolation, with no escaping; a null piece is rendered as "".
   */
  function AddParameter(self: Option<string>, name: Option<string>, value: Option<string>): (r: string)
    ensures StartsWith(r, Text(self)) && EndsWith(r, Text(value))
    ensures |r| == |Text(self)| + |Text(name)| + |Text(value)| + 2
    ensures r[|Text(self)|] == '&' && r[|Text(self)| + 1 + |Text(name)|] == '='
    ensures r[|Text(self)| + 1..|Text(self)| + 1 + |Text(name)|] == Text(name)
  {
    Text(self) + "&" + Text(name) + "=" + Text(value)
  }

  /** The `bool` overload: the value is rendered as "True" or "False". */
  function AddParameterBool(self: Option<string>, name: Option<string>, value: bool): (r: string)
    ensures |r| == |Text(self)| + |Text(name)| + 2 + (if value then 4 else 5)
    ensures r[..|Text(self)|] == Text(self) && r[|Text(self)|] == '&'
    ensures r[|Text(self)| + 1..|Text(self)| + 1 + |Text(name)|] == Text(name)
    ensures r[|Text(self)| + 1 + |Text(name)|] == '='
    ensures r[|Text(self)| + |Text(name)| + 2..] == (if value then "True" else "False")
  {
    AddParameter(self, name, Some(BoolText(value)))
  }

  /** A boolean parameter reads back as its name and the text "True" or "False". */
  lemma BoolParameterReadsBack(self: Option<string>, name: string, value: bool)
    requires '&' !in name && '=' !in name
    ensures LastParameter(AddParameterBool(self, Some(name), value)) == Some((name, if value then "True" else "False"))
  {
    ParameterReadsBack(self, name, BoolText(value));
  }

  /** The `int` overload: the value is rendered in decimal, and reads back as the same number. */
  function AddParameterInt(self: Option<string>, name: Option<string>, value: Int32): (r: string)
    ensures |Text(self)| + |Text(name)| + 2 <= |r|
    ensures r[..|Text(self)|] == Text(self) && r[|Text(self)|] == '&'
    ensures r[|Text(self)| + 1..|Text(self)| + 1 + |Text(name)|] == Text(name)
    ensures r[|Text(self)| + 1 + |Text(name)|] == '='
    ensures r[|Text(self)| + |Text(name)| + 2..] == DecimalText(value)
    ensures ParseDecimal(r[|Text(self)| + |Text(name)| + 2..]) == Some(value as int)
  {
    var rendered := DecimalText(value);
    DecimalRoundTrip(value);
    var r := AddParameter(self, name, Some(rendered));
    assert r[|Text(self)| + |Text(name)| + 2..] == rendered;
    r
  }

  /**
   * Reads the last "&name=value" pair of a query text: the name runs from the
   * last '&' to the first '=' after it, the value from there to the end.
   */
  function LastParameter(query: string): Option<(string, string)> {
    match LastIndexOf(query, '&')
    case None => None
    case Some(i) =>
      var pair := query[i + 1..];
      match IndexOf(pair, '=')
      case None => None
      case Some(j) => Some((pair[..j], pair[j + 1..]))
  }

  /** The separator put in by the helper is the last '&' when the pair holds none. */
  lemma LastSeparator(head: string, pair: string)
    requires '&' !in pair
    ensures LastIndexOf(head + "&" + pair, '&') == Some(|head|)
  {
    assert (head + "&" + pair)[|head|] == '&';
  }

  /** The '=' put in by the helper is the first one when the name holds none. */
  lemma FirstEquals(name: string, value: string)
    requires '=' !in name
    ensures IndexOf(name + "=" + value, '=') == Some(|name|)
  {
    assert (name + "=" + value)[|name|] == '=';
  }

  /**
   * The appended pair reads back when neither piece contains a separator the
   * helper would have had to escape.
   */
  lemma ParameterReadsBack(self: Option<string>, name: string, value: string)
    requires '&' !in name && '=' !in name && '&' !in value
    ensures LastParameter(AddParameter(self, Some(name), Some(value))) == Some((name, value))
  {
    var pair := name + "=" + value;
    NoSeparatorInPair(name, value);
    ParameterSplit(Text(self), name, value);
    FirstEquals(name, value);
    LastParameterAfter(Text(self), pair, |name|);
    assert pair[..|name|] == name;
    assert pair[|name| + 1..] == value;
  }

  lemma ParameterSplit(head: string, name: string, value: string)
    ensures head + "&" + name + "=" + value == head + "&" + (name + "=" + value)
  {
  }

  lemma NoSeparatorInPair(name: string, value: string)
    requires '&' !in name && '&' !in value
    ensures '&' !in name + "=" + value
  {
    assert name + "=" + value == name + ("=" + value);
  }

  /** The last pair of "head&pair" is read from `pair` alone, split at its first '='. */
  lemma LastParameterAfter(head: string, pair: string, j: nat)
    requires '&' !in pair
    requires IndexOf(pair, '=') == Some(j)
    ensures LastParameter(head + "&" + pair) == Some((pair[..j], pair[j + 1..]))
  {
    var q := head + "&" + pair;
    LastSeparator(head, pair);
    assert q[|head| + 1..] == pair by {
      assert q == (head + "&") + pair;
    }
    assert LastParameter(q) == match IndexOf(pair, '=')
      case None => None
      case Some(j) => Some((pair[..j], pair[j + 1..]));
  }

  /** An integer parameter reads back as its name and a numeral denoting the value. */
  lemma IntParameterReadsBack(self: Option<string>, name: string, value: Int32)
    requires '&' !in name && '=' !in name
    ensures var pair := LastParameter(AddParameterInt(self, Some(name), value));
            pair.Some? && pair.value.0 == name && ParseDecimal(pair.value.1) == Some(value as int)
  {
    var text := DecimalText(value);
    assert '&' !in text by {
      NoSignOrSeparator(value);
    }
    ParameterReadsBack(self, name, text);
    DecimalRoundTrip(value);
  }

  lemma NoSignOrSeparator(value: int)
    ensures '&' !in DecimalText(value)
  {
    var text := DecimalText(value);
    var digits := if value < 0 then text[1..] else text;
    assert AllDigits(digits);
    assert value < 0 ==> text == "-" + digits;
  }

  /**
   * Without escaping, different name/value pairs can give the same text: a
   * name holding '=' is indistinguishable from a value holding it.
   */
  lemma ParametersAreNotEscaped()
    ensures AddParameter(Some("q"), Some("a=b"), Some("c")) == AddParameter(Some("q"), Some("a"), Some("b=c"))
  {
  }

  /** `order` lists every key of `entries` exactly once: one possible enumeration order. */
  ghost predicate IsEnumeration(order: seq<string>, entries: map<string, string>) {
    && (forall name :: name in order <==> name in entries)
    && (forall i, j :: 0 <= i < j < |order| ==> order[i] != order[j])
  }

  /** The values of the entries whose names fold to `key`, in the order `order` lists them. */
  function ValuesFor(entries: map<string, string>, order: seq<string>, key: string): seq<string>
    requires forall name :: name in order ==> name in entries
  {
    if order == [] then []
    else
      var name := order[|order| - 1];
      ValuesFor(entries, order[..|order| - 1], key) + (if HeaderKey(name) == key then [entries[name]] else [])
  }

  /**
   * The header collection after the entries of `entries` have been added to
   * `existing` one `Add` call at a time, in the order `order` lists their names.
   */
  function AddedInOrder(existing: map<string, seq<string>>, entries: map<string, string>, order: seq<string>): map<string, seq<string>>
    requires forall name :: name in order ==> name in entries
  {
    if order == [] then existing
    else
      var name := order[|order| - 1];
      Appended(AddedInOrder(existing, entries, order[..|order| - 1]), name, entries[name])
  }

  /** Adding entries keeps every header key folded. */
  lemma {:induction false} AddedInOrderFolded(existing: map<string, seq<string>>, entries: map<string, string>, order: seq<string>)
    requires forall name :: name in order ==> name in entries
    requires Folded(existing)
    ensures Folded(AddedInOrder(existing, entries, order))
  {
    if order != [] {
      AddedInOrderFolded(existing, entries, order[..|order| - 1]);
    }
  }

  /** The folded names that `order` lists. */
  function KeysOf(order: seq<string>): set<string> {
    set name | name in order :: HeaderKey(name)
  }

  /** After the additions the header keys are the old ones plus the folded names added. */
  lemma {:induction false} AddedInOrderKeys(existing: map<string, seq<string>>, entries: map<string, string>, order: seq<string>)
    requires forall name :: name in order ==> name in entries
    ensures AddedInOrder(existing, entries, order).Keys == existing.Keys + KeysOf(order)
  {
    if order != [] {
      var front := order[..|order| - 1];
      var name := order[|order| - 1];
      AddedInOrderKeys(existing, entries, front);
      assert KeysOf(order) == KeysOf(front) + {HeaderKey(name)} by {
        assert order == front + [name];
        assert forall n :: n in order <==> n in front || n == name;
      }
    }
  }

  /**
   * After the additions each key's values are its old values followed by the
   * values of the entries whose names fold to it.
   */
  lemma {:induction false} AddedInOrderValues(existing: map<string, seq<string>>, entries: map<string, string>, order: seq<string>, key: string)
    requires forall name :: name in order ==> name in entries
    ensures ValuesAt(AddedInOrder(existing, entries, order), key) == ValuesAt(existing, key) + ValuesFor(entries, order, key)
  {
    if order != [] {
      var front := order[..|order| - 1];
      var name := order[|order| - 1];
      var before := AddedInOrder(existing, entries, front);
      AddedInOrderValues(existing, entries, front, key);
      assert AddedInOrder(existing, entries, order) == Appended(before, name, entries[name]);
      if HeaderKey(name) == key {
        assert ValuesAt(Appended(before, name, entries[name]), key) == ValuesAt(before, key) + [entries[name]];
      } else {
        assert ValuesAt(Appended(before, name, entries[name]), key) == ValuesAt(before, key);
      }
    }
  }

  /** Every entry's value is among the values of the header its name folds to. */
  lemma {:induction false} EveryEntryAdded(existing: map<string, seq<string>>, entries: map<string, string>, order: seq<string>, name: string)
    requires forall n :: n in order ==> n in entries
    requires name in order
    ensures HeaderKey(name) in AddedInOrder(existing, entries, order)
    ensures entries[name] in AddedInOrder(existing, entries, order)[HeaderKey(name)]
  {
    AddedInOrderKeys(existing, entries, order);
    AddedInOrderValues(existing, entries, order, HeaderKey(name));
    EntryValueListed(entries, order, name);
  }

  lemma {:induction false} EntryValueListed(entries: map<string, string>, order: seq<string>, name: string)
    requires forall n :: n in order ==> n in entries
    requires name in order
    ensures entries[name] in ValuesFor(entries, order, HeaderKey(name))
  {
    var front, last := order[..|order| - 1], order[|order| - 1];
    if last != name {
      assert order == front + [last];
      EntryValueListed(entries, front, name);
    }
  }

  /** A header whose key no added name folds to keeps exactly the values it had. */
  lemma OtherHeadersUnchanged(existing: map<string, seq<string>>, entries: map<string, string>, order: seq<string>, key: string)
    requires forall n :: n in order ==> n in entries
    requires forall n :: n in order ==> HeaderKey(n) != key
    ensures key in AddedInOrder(existing, entries, order) <==> key in existing
    ensures ValuesAt(AddedInOrder(existing, entries, order), key) == ValuesAt(existing, key)
  {
    AddedInOrderKeys(existing, entries, order);
    AddedInOrderValues(existing, entries, order, key);
    ValuesForOtherNames(entries, order, key);
  }

  /** Splitting the enumeration splits the values it contributes. */
  lemma {:induction false} ValuesForAppend(entries: map<string, string>, a: seq<string>, b: seq<string>, key: string)
    requires forall name :: name in a + b ==> name in entries
    ensures ValuesFor(entries, a + b, key) == ValuesFor(entries, a, key) + ValuesFor(entries, b, key)
    decreases |b|
  {
    if b != [] {
      var b' := b[..|b| - 1];
      assert (a + b)[..|a + b| - 1] == a + b';
      ValuesForAppend(entries, a, b', key);
    } else {
      assert a + b == a;
    }
  }

  /** Names that do not fold to `key` contribute no value to it. */
  lemma {:induction false} ValuesForOtherNames(entries: map<string, string>, order: seq<string>, key: string)
    requires forall name :: name in order ==> name in entries
    requires forall name :: name in order ==> HeaderKey(name) != key
    ensures ValuesFor(entries, order, key) == []
  {
    if order != [] {
      ValuesForOtherNames(entries, order[..|order| - 1], key);
    }
  }

  /** A name listed by a rearrangement is listed by the original. */
  lemma RearrangedNames(entries: map<string, string>, o1: seq<string>, o2: seq<string>)
    requires forall name :: name in o1 ==> name in entries
    requires multiset(o1) == multiset(o2)
    ensures forall name :: name in o2 ==> name in entries
  {
    forall name | name in o2 ensures name in entries {
      assert name in multiset(o2);
    }
  }

  /** The values contributed around one name: those before it, its own, those after it. */
  lemma ValuesAroundName(entries: map<string, string>, o: seq<string>, i: nat, key: string)
    requires forall name :: name in o ==> name in entries
    requires i < |o|
    ensures multiset(ValuesFor(entries, o, key))
         == multiset(ValuesFor(entries, o[..i] + o[i + 1..], key))
          + multiset(if HeaderKey(o[i]) == key then [entries[o[i]]] else [])
  {
    var before, after := o[..i], o[i + 1..];
    assert o == before + [o[i]] + after;
    ValuesForAppend(entries, before + [o[i]], after, key);
    ValuesForAppend(entries, before, [o[i]], key);
    ValuesForAppend(entries, before, after, key);
    assert ValuesFor(entries, [o[i]], key) == (if HeaderKey(o[i]) == key then [entries[o[i]]] else []) by {
      assert [o[i]][..0] == [];
    }
  }

  /**
   * Whatever the enumeration order, each header receives the same values:
   * only the order of the values under one key can differ.
   */
  lemma {:induction false} ValuesForAnyOrder(entries: map<string, string>, o1: seq<string>, o2: seq<string>, key: string)
    requires forall name :: name in o1 ==> name in entries
    requires multiset(o1) == multiset(o2)
    ensures forall name :: name in o2 ==> name in entries
    ensures multiset(ValuesFor(entries, o1, key)) == multiset(ValuesFor(entries, o2, key))
    decreases |o1|
  {
    RearrangedNames(entries, o1, o2);
    if o1 != [] {
      var front, last := o1[..|o1| - 1], o1[|o1| - 1];
      assert o1 == front + [last];
      assert last in multiset(o2);
      var i :| 0 <= i < |o2| && o2[i] == last;
      var rest := o2[..i] + o2[i + 1..];
      assert multiset(front) == multiset(rest) by {
        assert multiset(front) == multiset(o1) - multiset{last};
        assert o2 == o2[..i] + [last] + o2[i + 1..];
        assert multiset(o2) == multiset(o2[..i]) + multiset{last} + multiset(o2[i + 1..]);
        assert multiset(rest) == multiset(o2[..i]) + multiset(o2[i + 1..]);
      }
      ValuesForAnyOrder(entries, front, rest, key);
      ValuesAroundName(entries, o2, i, key);
    }
  }

  /** With no two names of `order` folding together, a key receives at most one value. */
  lemma {:induction false} AtMostOneValue(entries: map<string, string>, order: seq<string>, key: string)
    requires forall name :: name in order ==> name in entries
    requires forall i, j :: 0 <= i < j < |order| ==> HeaderKey(order[i]) != HeaderKey(order[j])
    ensures |ValuesFor(entries, order, key)| <= 1
  {
    if order != [] {
      var front, last := order[..|order| - 1], order[|order| - 1];
      if HeaderKey(last) == key {
        ValuesForOtherNames(entries, front, key);
      } else {
        AtMostOneValue(entries, front, key);
      }
    }
  }

  /** With no two names folding together, a key receives the same values in any two orders. */
  lemma SameValuesAnyOrder(entries: map<string, string>, o1: seq<string>, o2: seq<string>, key: string)
    requires IsEnumeration(o1, entries) && IsEnumeration(o2, entries)
    requires forall a, b :: a in entries && b in entries && HeaderKey(a) == HeaderKey(b) ==> a == b
    ensures ValuesFor(entries, o1, key) == ValuesFor(entries, o2, key)
  {
    SameMultiset(o1, o2, entries);
    ValuesForAnyOrder(entries, o1, o2, key);
    AtMostOneValue(entries, o1, key);
    AtMostOneValue(entries, o2, key);
    ShortAndSameMultiset(ValuesFor(entries, o1, key), ValuesFor(entries, o2, key));
  }

  /** Sequences of at most one element with the same elements are equal. */
  lemma ShortAndSameMultiset(v1: seq<string>, v2: seq<string>)
    requires |v1| <= 1 && |v2| <= 1 && multiset(v1) == multiset(v2)
    ensures v1 == v2
  {
    assert |v1| == |multiset(v1)| == |multiset(v2)| == |v2|;
    if |v1| == 1 {
      assert v1[0] in multiset(v2);
    }
  }

  /**
   * When no two keys of the dictionary differ only in case, the enumeration
   * order does not matter: every order gives the same headers.
   */
  lemma DistinctNamesAnyOrder(existing: map<string, seq<string>>, entries: map<string, string>, o1: seq<string>, o2: seq<string>)
    requires IsEnumeration(o1, entries) && IsEnumeration(o2, entries)
    requires forall a, b :: a in entries && b in entries && HeaderKey(a) == HeaderKey(b) ==> a == b
    ensures AddedInOrder(existing, entries, o1) == AddedInOrder(existing, entries, o2)
  {
    var r1, r2 := AddedInOrder(existing, entries, o1), AddedInOrder(existing, entries, o2);
    AddedInOrderKeys(existing, entries, o1);
    AddedInOrderKeys(existing, entries, o2);
    assert KeysOf(o1) == KeysOf(o2);
    forall key | key in r1
      ensures r1[key] == r2[key]
    {
      AddedInOrderValues(existing, entries, o1, key);
      AddedInOrderValues(existing, entries, o2, key);
      SameValuesAnyOrder(entries, o1, o2, key);
      assert ValuesAt(r1, key) == ValuesAt(r2, key);
    }
  }

  /** Two enumerations of the same dictionary hold the same names. */
  lemma SameMultiset(o1: seq<string>, o2: seq<string>, entries: map<string, string>)
    requires IsEnumeration(o1, entries) && IsEnumeration(o2, entries)
    ensures multiset(o1) == multiset(o2)
  {
    DistinctMultiset(o1);
    DistinctMultiset(o2);
  }

  /** A sequence without repetitions holds each of its elements once. */
  lemma {:induction false} DistinctMultiset(s: seq<string>)
    requires forall i, j :: 0 <= i < j < |s| ==> s[i] != s[j]
    ensures forall x :: multiset(s)[x] == if x in s then 1 else 0
  {
    if s != [] {
      var front := s[..|s| - 1];
      assert s == front + [s[|s| - 1]];
      DistinctMultiset(front);
    }
  }

  /**
   * Two dictionary keys that differ only in case feed one header, whose values
   * then follow the enumeration order.
   */
  lemma CaseVariantsShareOneHeader()
    ensures var entries := map["X-Id" := "1", "x-id" := "2"];
            && AddedInOrder(map[], entries, ["X-Id", "x-id"]) == map["x-id" := ["1", "2"]]
            && AddedInOrder(map[], entries, ["x-id", "X-Id"]) == map["x-id" := ["2", "1"]]
  {
    HeaderNamesIgnoreCase();
    var entries := map["X-Id" := "1", "x-id" := "2"];
    assert ["X-Id", "x-id"][..1] == ["X-Id"] && ["X-Id"][..0] == [];
    assert ["x-id", "X-Id"][..1] == ["x-id"] && ["x-id"][..0] == [];
    var first := Appended(map[], "X-Id", "1");
    assert first.Keys == {"x-id"} && first["x-id"] == ["1"];
    var both := Appended(first, "x-id", "2");
    assert both.Keys == {"x-id"} && both["x-id"] == ["1", "2"];
    var other := Appended(map[], "x-id", "2");
    assert other.Keys == {"x-id"} && other["x-id"] == ["2"];
    var swapped := Appended(other, "X-Id", "1");
    assert swapped.Keys == {"x-id"} && swapped["x-id"] == ["2", "1"];
  }

  /**
   * `request.AddHeaders(headers)`: adds every entry of a dictionary that is
   * neither null nor empty to the request's headers, in the dictionary's
   * enumeration order, which is left open, and returns the same request.
   */
  method AddHeaders(request: RequestMessage, headers: Option<map<string, string>>) returns (r: RequestMessage)
    requires Folded(request.Headers.Values)
    modifies request.Headers
    ensures r == request
    ensures Folded(request.Headers.Values)
    ensures headers.None? ==> request.Headers.Values == old(request.Headers.Values)
    ensures headers.Some? ==>
              exists order :: IsEnumeration(order, headers.value)
                && request.Headers.Values == AddedInOrder(old(request.Headers.Values), headers.value, order)
  {
    if headers.Some? && |headers.value| > 0 {
      var entries := headers.value;
      var pending := entries.Keys;
      ghost var order: seq<string> := [];
      while pending != {}
        invariant pending <= entries.Keys
        invariant forall name :: name in order <==> name in entries && name !in pending
        invariant forall i, j :: 0 <= i < j < |order| ==> order[i] != order[j]
        invariant request.Headers.Values == AddedInOrder(old(request.Headers.Values), entries, order)
        decreases pending
      {
        var name :| name in pending;
        request.Headers.Add(name, entries[name]);
        order := order + [name];
        pending := pending - {name};
      }
      assert IsEnumeration(order, entries);
      AddedInOrderFolded(old(request.Headers.Values), entries, order);
    } else if headers.Some? {
      assert IsEnumeration([], headers.value);
      assert request.Headers.Values == AddedInOrder(old(request.Headers.Values), headers.value, []);
    }
    r := request;
  }

  /**
   * `dictionary.WithPair(key, value)`: a null dictionary is replaced by a new
   * empty one, then the pair is added with `Dictionary.Add`, which throws for
   * a null key or a key already present.
   */
  method WithPair(dictionary: Dictionary?, key: Option<string>, value: string) returns (r: Result<Dictionary>)
    modifies dictionary
    ensures r.Ok? <==> key.Some? && (dictionary == null || key.value !in old(dictionary.Entries))
    ensures dictionary != null ==> r.Ok? ==> r.value == dictionary
    ensures dictionary == null && r.Ok? ==> fresh(r.value) && r.value.Entries == map[key.value := value]
    ensures r.Thrown? ==> r.error == (if key.None? then ArgumentNull else DuplicateKey)
    ensures dictionary != null ==>
              dictionary.Entries == if r.Ok? then old(dictionary.Entries)[key.value := value] else old(dictionary.Entries)
  {
    var target := dictionary;
    if target == null {
      target := new Dictionary();
    }
    var outcome := target.Add(key, value);
    if outcome.Pass? {
      r := Ok(target);
    } else {
      r := Thrown(outcome.error);
    }
  }
}
