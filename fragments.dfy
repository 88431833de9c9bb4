/**
 * The two property-fragment serialisers of the persistence service.
 *
 * Both take the JSON text of a node's data object (the JSON serialiser itself
 * is outside the model) and rewrite it character by character, keeping one
 * flag, `remove`, that is true while the scan is in "key position": after the
 * start of the text or after a ',' and before the next ':'.
 *
 * The transforms are lexical: a ',' or ':' inside a string value is treated
 * as structure exactly like one between fields; the model keeps that.
 *
 * The specification functions are defined on prefixes (the last character is
 * peeled off), which is the order in which the source's loops append.
 */
module Fragments {

  /** The value of the source's `remove` flag after scanning `prefix`: true when
      the last ':' or ',' of `prefix` is a ',' or there is none. */
  predicate KeyPosition(prefix: string)
    decreases |prefix|
  {
    if prefix == [] then true
    else
      var c := prefix[|prefix| - 1];
      if c == ':' then false
      else if c == ',' then true
      else KeyPosition(prefix[..|prefix| - 1])
  }

  /** What the create-fragment scan appends for character `c` read after `init`. */
  function CreateEmit(init: string, c: char): string
  {
    if c == '"' && KeyPosition(init) then [] else [c]
  }

  /** The create-fragment of `json`: every '"' read in key position is dropped,
      every other character is copied. */
  function CreateFragment(json: string): (r: string)
    ensures |r| <= |json|
    decreases |json|
  {
    if json == [] then []
    else
      var init := json[..|json| - 1];
      CreateFragment(init) + CreateEmit(init, json[|json| - 1])
  }

  /** What the set-fragment scan appends for character `c` read after `init`,
      where `p` is the node prefix (the variable name followed by '.'). */
  function SetEmit(p: string, init: string, c: char): string
  {
    if c == '{' || c == '}' then []
    else if c == ':' then "="
    else if c == ',' then [','] + p
    else if c == '"' && KeyPosition(init) then []
    else [c]
  }

  /** The set-fragment of `json` without its leading prefix. */
  function SetBody(p: string, json: string): string
    decreases |json|
  {
    if json == [] then []
    else
      var init := json[..|json| - 1];
      SetBody(p, init) + SetEmit(p, init, json[|json| - 1])
  }

  /** The set-fragment: `node + "."` followed by the rewritten body. */
  function SetFragment(node: string, json: string): string
  {
    (node + ".") + SetBody(node + ".", json)
  }

  /** A stateless rewrite used to relate the two fragments: braces vanish,
      ':' becomes '=', ',' is followed by the prefix `p`. */
  function ExpandChar(p: string, c: char): string
  {
    if c == '{' || c == '}' then []
    else if c == ':' then "="
    else if c == ',' then [','] + p
    else [c]
  }

  function Expand(p: string, t: string): string
    decreases |t|
  {
    if t == [] then []
    else Expand(p, t[..|t| - 1]) + ExpandChar(p, t[|t| - 1])
  }

  /** `r` is `s` with some '"' characters deleted and nothing else changed. */
  ghost predicate IsQuoteDeletion(r: string, s: string)
    decreases |s|
  {
    if s == [] then r == []
    else
      var init, c := s[..|s| - 1], s[|s| - 1];
      (c == '"' && IsQuoteDeletion(r, init))
      || (r != [] && r[|r| - 1] == c && IsQuoteDeletion(r[..|r| - 1], init))
  }

  // ---------------------------------------------------------------------------
  // The two scans, as the source writes them.
  // ---------------------------------------------------------------------------

  /** Scans `json` once, dropping key quotes. */
  method CypherSerializeToCreatePropertiesObject(json: string) returns (r: string)
    ensures r == CreateFragment(json)
  {
    var remove := true;
    var properties := "";
    for i := 0 to |json|
      invariant remove == KeyPosition(json[..i])
      invariant properties == CreateFragment(json[..i])
    {
      var character := json[i];
      assert json[..i + 1][..i] == json[..i];
      if character == ':' {
        remove := false;
      }
      if character == ',' {
        remove := true;
      }
      if character == '"' && remove {
        continue;
      }
      properties := properties + [character];
    }
    assert json[..|json|] == json;
    r := properties;
  }

  /** Scans `json` once, producing `node.key=value,node.key=value`. */
  method CypherSerializeToSetPropertiesQuery(node: string, json: string) returns (r: string)
    ensures r == SetFragment(node, json)
    ensures r[..|node| + 1] == node + "."
  {
    var remove := true;
    var properties := "";
    var prefix := node + ".";
    properties := properties + prefix;
    for i := 0 to |json|
      invariant remove == KeyPosition(json[..i])
      invariant properties == prefix + SetBody(prefix, json[..i])
    {
      var character := json[i];
      assert json[..i + 1][..i] == json[..i];
      if character == '{' || character == '}' {
        continue;
      }
      if character == ':' {
        remove := false;
        properties := properties + "=";
        continue;
      }
      if character == ',' {
        remove := true;
        properties := properties + [character];
        properties := properties + prefix;
        continue;
      }
      if character == '"' && remove {
        continue;
      }
      properties := properties + [character];
    }
    assert json[..|json|] == json;
    r := properties;
  }

  // ---------------------------------------------------------------------------
  // Create-fragment properties.
  // ---------------------------------------------------------------------------

  lemma CreateFragmentAppend(s: string, c: char)
    ensures CreateFragment(s + [c]) == CreateFragment(s) + CreateEmit(s, c)
  {
    assert (s + [c])[..|s|] == s;
  }

  lemma KeyPositionAppend(s: string, c: char)
    ensures KeyPosition(s + [c]) == if c == ':' then false else if c == ',' then true else KeyPosition(s)
  {
    assert (s + [c])[..|s|] == s;
  }

  lemma QuoteDeletionAppend(r: string, s: string, c: char)
    ensures IsQuoteDeletion(r, s + [c]) ==
            ((c == '"' && IsQuoteDeletion(r, s)) || (r != [] && r[|r| - 1] == c && IsQuoteDeletion(r[..|r| - 1], s)))
  {
    assert (s + [c])[..|s|] == s;
  }

  /** The create-fragment is the input with some '"' characters deleted. */
  lemma {:induction false} CreateFragmentDeletesOnlyQuotes(s: string)
    ensures IsQuoteDeletion(CreateFragment(s), s)
    decreases |s|
  {
    if s != [] {
      var init, c := s[..|s| - 1], s[|s| - 1];
      assert s == init + [c];
      CreateFragmentDeletesOnlyQuotes(init);
      CreateFragmentAppend(init, c);
      QuoteDeletionAppend(CreateFragment(s), init, c);
      if CreateEmit(init, c) != [] {
        var r := CreateFragment(s);
        assert r[..|r| - 1] == CreateFragment(init);
      } else {
        assert CreateFragment(s) == CreateFragment(init);
      }
    }
  }

  /** A quote deletion keeps every other character, in order, with the same count. */
  lemma {:induction false} QuoteDeletionKeepsCounts(r: string, s: string, c: char)
    requires IsQuoteDeletion(r, s)
    requires c != '"'
    ensures multiset(r)[c] == multiset(s)[c]
    ensures |r| <= |s|
    decreases |s|
  {
    if s != [] {
      var init := s[..|s| - 1];
      assert s == init + [s[|s| - 1]];
      if s[|s| - 1] == '"' && IsQuoteDeletion(r, init) {
        QuoteDeletionKeepsCounts(r, init, c);
      } else {
        QuoteDeletionKeepsCounts(r[..|r| - 1], init, c);
        assert r == r[..|r| - 1] + [r[|r| - 1]];
      }
    }
  }

  /** Input without any '"' comes back unchanged. */
  lemma {:induction false} CreateFragmentWithoutQuotes(s: string)
    requires '"' !in s
    ensures CreateFragment(s) == s
    decreases |s|
  {
    if s != [] {
      var init := s[..|s| - 1];
      assert s == init + [s[|s| - 1]];
      CreateFragmentWithoutQuotes(init);
    }
  }

  /** `KeyPosition` read forwards: the scan is in key position exactly when
      every ':' of the prefix is followed, later on, by a ','. */
  lemma {:induction false} KeyPositionByLastDelimiter(p: string)
    ensures KeyPosition(p) <==>
            forall i :: 0 <= i < |p| && p[i] == ':' ==> exists j :: i < j < |p| && p[j] == ','
    decreases |p|
  {
    if p != [] {
      var init, c := p[..|p| - 1], p[|p| - 1];
      assert p == init + [c];
      KeyPositionAppend(init, c);
      KeyPositionByLastDelimiter(init);
      if c == ':' {
        assert p[|p| - 1] == ':';
      } else if c == ',' {
        forall i | 0 <= i < |p| && p[i] == ':'
          ensures exists j :: i < j < |p| && p[j] == ','
        {
          assert p[|p| - 1] == ',';
        }
      } else if KeyPosition(init) {
        forall i | 0 <= i < |p| && p[i] == ':'
          ensures exists j :: i < j < |p| && p[j] == ','
        {
          assert i < |init| && init[i] == ':';
          var j :| i < j < |init| && init[j] == ',';
          assert p[j] == ',';
        }
      } else {
        var i :| 0 <= i < |init| && init[i] == ':' && !(exists j :: i < j < |init| && init[j] == ',');
        assert p[i] == ':';
        forall j | i < j < |p|
          ensures p[j] != ','
        {
          if j < |init| {
            assert p[j] == init[j];
          }
        }
      }
    }
  }

  /** Deleting key quotes does not move any ':' or ',', so the flag is the same
      after the output as after the input. */
  lemma {:induction false} CreateFragmentKeepsKeyPosition(s: string)
    ensures KeyPosition(CreateFragment(s)) == KeyPosition(s)
    decreases |s|
  {
    if s != [] {
      var init, c := s[..|s| - 1], s[|s| - 1];
      assert s == init + [c];
      CreateFragmentKeepsKeyPosition(init);
      CreateFragmentAppend(init, c);
      KeyPositionAppend(init, c);
      if CreateEmit(init, c) != [] {
        KeyPositionAppend(CreateFragment(init), c);
      } else {
        assert CreateFragment(s) == CreateFragment(init);
      }
    }
  }

  /** Applying the create-fragment twice equals applying it once. */
  lemma {:induction false} CreateFragmentIdempotent(s: string)
    ensures CreateFragment(CreateFragment(s)) == CreateFragment(s)
    decreases |s|
  {
    if s != [] {
      var init, c := s[..|s| - 1], s[|s| - 1];
      assert s == init + [c];
      CreateFragmentIdempotent(init);
      CreateFragmentKeepsKeyPosition(init);
      CreateFragmentAppend(init, c);
      var once := CreateFragment(init);
      if CreateEmit(init, c) != [] {
        CreateFragmentAppend(once, c);
        assert CreateEmit(once, c) == [c];
      } else {
        assert CreateFragment(s) == once;
      }
    }
  }

  // ---------------------------------------------------------------------------
  // Set-fragment properties.
  // ---------------------------------------------------------------------------

  lemma ExpandAppend(p: string, t: string, c: char)
    ensures Expand(p, t + [c]) == Expand(p, t) + ExpandChar(p, c)
  {
    assert (t + [c])[..|t|] == t;
  }

  lemma SetBodyAppend(p: string, s: string, c: char)
    ensures SetBody(p, s + [c]) == SetBody(p, s) + SetEmit(p, s, c)
  {
    assert (s + [c])[..|s|] == s;
  }

  /** The set-fragment body is the create-fragment rewritten without state:
      quotes are dropped in key position exactly as in the create-fragment. */
  lemma {:induction false} SetBodyIsExpandedCreateFragment(p: string, s: string)
    ensures SetBody(p, s) == Expand(p, CreateFragment(s))
    decreases |s|
  {
    if s != [] {
      var init, c := s[..|s| - 1], s[|s| - 1];
      assert s == init + [c];
      SetBodyIsExpandedCreateFragment(p, init);
      SetBodyAppend(p, init, c);
      CreateFragmentAppend(init, c);
      if CreateEmit(init, c) != [] {
        ExpandAppend(p, CreateFragment(init), c);
      } else {
        assert CreateFragment(s) == CreateFragment(init);
      }
    }
  }

  /** Every ',' produced by `Expand` is immediately followed by the prefix. */
  lemma {:induction false} ExpandCommaFollowedByPrefix(p: string, t: string)
    requires ',' !in p
    ensures forall i :: 0 <= i < |Expand(p, t)| && Expand(p, t)[i] == ',' ==>
              i + 1 + |p| <= |Expand(p, t)| && Expand(p, t)[i + 1..i + 1 + |p|] == p
    decreases |t|
  {
    if t != [] {
      var init, c := t[..|t| - 1], t[|t| - 1];
      ExpandCommaFollowedByPrefix(p, init);
      var e0, e := Expand(p, init), Expand(p, t);
      assert e == e0 + ExpandChar(p, c);
      forall i | 0 <= i < |e| && e[i] == ','
        ensures i + 1 + |p| <= |e| && e[i + 1..i + 1 + |p|] == p
      {
        if i < |e0| {
          assert e0[i] == ',';
          assert e[i + 1..i + 1 + |p|] == e0[i + 1..i + 1 + |p|];
        } else {
          assert ExpandChar(p, c)[i - |e0|] == ',';
          assert c == ',' && i == |e0|;
          assert e[i + 1..i + 1 + |p|] == p;
        }
      }
    }
  }

  /** `Expand` keeps the commas one for one. */
  lemma {:induction false} ExpandCommaCount(p: string, t: string)
    requires ',' !in p
    ensures multiset(Expand(p, t))[','] == multiset(t)[',']
    decreases |t|
  {
    if t != [] {
      var init, c := t[..|t| - 1], t[|t| - 1];
      assert t == init + [c];
      ExpandCommaCount(p, init);
      ExpandAppend(p, init, c);
      assert multiset(Expand(p, t)) == multiset(Expand(p, init)) + multiset(ExpandChar(p, c));
      assert multiset(t) == multiset(init) + multiset([c]);
      assert multiset(p)[','] == 0;
    }
  }

  /** Every '=' of `Expand` comes from a ':' or an '=' of the input. */
  lemma {:induction false} ExpandEqualsCount(p: string, t: string)
    requires '=' !in p
    ensures multiset(Expand(p, t))['='] == multiset(t)[':'] + multiset(t)['=']
    decreases |t|
  {
    if t != [] {
      var init, c := t[..|t| - 1], t[|t| - 1];
      assert t == init + [c];
      ExpandEqualsCount(p, init);
      ExpandAppend(p, init, c);
      assert multiset(Expand(p, t)) == multiset(Expand(p, init)) + multiset(ExpandChar(p, c));
      assert multiset(t) == multiset(init) + multiset([c]);
      ExpandCharEquals(p, c);
    }
  }

  lemma ExpandCharEquals(p: string, c: char)
    requires '=' !in p
    ensures multiset(ExpandChar(p, c))['='] == if c == ':' || c == '=' then 1 else 0
  {
    if c == ',' {
      assert multiset([','] + p) == multiset([',']) + multiset(p);
      assert multiset(p)['='] == 0;
    }
  }

  /** No ':', '{' or '}' survives `Expand`. */
  lemma {:induction false} ExpandDropsStructure(p: string, t: string)
    requires ':' !in p && '{' !in p && '}' !in p
    ensures ':' !in Expand(p, t) && '{' !in Expand(p, t) && '}' !in Expand(p, t)
    decreases |t|
  {
    if t != [] {
      var init, c := t[..|t| - 1], t[|t| - 1];
      assert t == init + [c];
      ExpandDropsStructure(p, init);
      ExpandAppend(p, init, c);
    }
  }

  /** The create-fragment keeps the count of every character other than '"'. */
  lemma CreateFragmentKeepsCount(s: string, c: char)
    requires c != '"'
    ensures multiset(CreateFragment(s))[c] == multiset(s)[c]
  {
    CreateFragmentDeletesOnlyQuotes(s);
    QuoteDeletionKeepsCounts(CreateFragment(s), s, c);
  }

  lemma CommaFollowedByPrefixAfterPrefix(p: string, e: string)
    requires ',' !in p
    requires forall i :: 0 <= i < |e| && e[i] == ',' ==> i + 1 + |p| <= |e| && e[i + 1..i + 1 + |p|] == p
    ensures forall i :: 0 <= i < |p + e| && (p + e)[i] == ',' ==> i + 1 + |p| <= |p + e| && (p + e)[i + 1..i + 1 + |p|] == p
  {
    var r := p + e;
    forall i | 0 <= i < |r| && r[i] == ','
      ensures i + 1 + |p| <= |r| && r[i + 1..i + 1 + |p|] == p
    {
      assert i >= |p|;
      assert e[i - |p|] == ',';
      assert r[i + 1..i + 1 + |p|] == e[i - |p| + 1..i - |p| + 1 + |p|];
    }
  }

  lemma SetBodyCommaFollowedByPrefix(p: string, s: string)
    requires ',' !in p
    ensures forall i :: 0 <= i < |SetBody(p, s)| && SetBody(p, s)[i] == ',' ==>
              i + 1 + |p| <= |SetBody(p, s)| && SetBody(p, s)[i + 1..i + 1 + |p|] == p
  {
    SetBodyIsExpandedCreateFragment(p, s);
    ExpandCommaFollowedByPrefix(p, CreateFragment(s));
  }

  /** Every ',' of the set-fragment is immediately followed by `node + "."`
      (when the variable name itself holds no ','). With the prefix at the
      start (the scan's own postcondition), the prefix occurs once at the start
      and once after every comma. */
  lemma {:induction false} SetFragmentCommaFollowedByPrefix(node: string, s: string)
    requires ',' !in node
    ensures forall i :: 0 <= i < |SetFragment(node, s)| && SetFragment(node, s)[i] == ',' ==>
              i + 2 + |node| <= |SetFragment(node, s)| && SetFragment(node, s)[i + 1..i + 2 + |node|] == node + "."
  {
    var p := node + ".";
    assert ',' !in p;
    SetBodyCommaFollowedByPrefix(p, s);
    CommaFollowedByPrefixAfterPrefix(p, SetBody(p, s));
  }

  /** There is exactly one ',' in the set-fragment per ',' in the input. */
  lemma {:induction false} SetFragmentCommaCount(node: string, s: string)
    requires ',' !in node
    ensures multiset(SetFragment(node, s))[','] == multiset(s)[',']
  {
    var p := node + ".";
    var e := SetBody(p, s);
    assert ',' !in p;
    SetBodyIsExpandedCreateFragment(p, s);
    ExpandCommaCount(p, CreateFragment(s));
    CreateFragmentKeepsCount(s, ',');
    assert multiset(p + e) == multiset(p) + multiset(e);
    assert multiset(p)[','] == 0;
  }

  /** Apart from the prefixes, the set-fragment holds no ':', '{' or '}', and
      every ':' of the input has become an '='. */
  lemma {:induction false} SetFragmentRewritesStructure(node: string, s: string)
    requires '=' !in node && ':' !in node && '{' !in node && '}' !in node
    ensures ':' !in SetFragment(node, s) && '{' !in SetFragment(node, s) && '}' !in SetFragment(node, s)
    ensures multiset(SetFragment(node, s))['='] == multiset(s)[':'] + multiset(s)['=']
  {
    var p := node + ".";
    var e := SetBody(p, s);
    assert '=' !in p && ':' !in p && '{' !in p && '}' !in p;
    SetBodyIsExpandedCreateFragment(p, s);
    ExpandEqualsCount(p, CreateFragment(s));
    ExpandDropsStructure(p, CreateFragment(s));
    CreateFragmentKeepsCount(s, ':');
    CreateFragmentKeepsCount(s, '=');
    assert multiset(p + e) == multiset(p) + multiset(e);
    assert multiset(p)['='] == 0;
  }

  // ---------------------------------------------------------------------------
  // Fragments of texts built from pieces.
  // ---------------------------------------------------------------------------

  /** Text without a ':', ',' or '"' passes through the create-fragment scan
      unchanged and leaves the flag as it was. */
  lemma {:induction false} CreatePlainAppend(s: string, t: string)
    requires ':' !in t && ',' !in t && '"' !in t
    ensures CreateFragment(s + t) == CreateFragment(s) + t
    ensures KeyPosition(s + t) == KeyPosition(s)
    decreases |t|
  {
    if t != [] {
      var init, c := t[..|t| - 1], t[|t| - 1];
      assert t == init + [c];
      assert s + t == (s + init) + [c];
      CreatePlainAppend(s, init);
      CreateFragmentAppend(s + init, c);
      KeyPositionAppend(s + init, c);
    } else {
      assert s + t == s;
    }
  }

  /** Text without braces, ':', ',' or '"' passes through the set-fragment
      scan unchanged and leaves the flag as it was. */
  lemma {:induction false} SetPlainAppend(p: string, s: string, t: string)
    requires '{' !in t && '}' !in t && ':' !in t && ',' !in t && '"' !in t
    ensures SetBody(p, s + t) == SetBody(p, s) + t
    ensures KeyPosition(s + t) == KeyPosition(s)
    decreases |t|
  {
    if t != [] {
      var init, c := t[..|t| - 1], t[|t| - 1];
      assert t == init + [c];
      assert s + t == (s + init) + [c];
      SetPlainAppend(p, s, init);
      SetBodyAppend(p, s + init, c);
      KeyPositionAppend(s + init, c);
    } else {
      assert s + t == s;
    }
  }

  // ---------------------------------------------------------------------------
  // The fragments of a person's JSON text `{"Name":"<name>","Role":"<role>"}`.
  // ---------------------------------------------------------------------------

  /** Text with none of the characters the scans treat as structure. */
  predicate Plain(s: string)
  {
    '{' !in s && '}' !in s && ':' !in s && ',' !in s && '"' !in s
  }

  /** The JSON text of an object with string fields `Name` and `Role`, in that order. */
  function PersonJson(name: string, role: string): string
  {
    "{\"Name\":\"" + name + "\",\"Role\":\"" + role + "\"}"
  }

  /** For plain values, the create-fragment unquotes the two keys and keeps the
      quotes around the values. */
  lemma PersonCreateFragment(name: string, role: string)
    requires Plain(name) && Plain(role)
    ensures CreateFragment(PersonJson(name, role)) == "{Name:\"" + name + "\",Role:\"" + role + "\"}"
  {
    var j1 := "{\"Name\":\"";
    var j2 := j1 + name;
    var j3 := j2 + "\",\"Role\":\"";
    var j4 := j3 + role;
    CreateOpen();
    CreatePlainAppend(j1, name);
    CreateNextKey(j2, "Role");
    CreatePlainAppend(j3, role);
    CreateClose(j4);
    ShapeRoleKey();
  }

  /** For plain values, the set-fragment assigns both fields of the node. */
  lemma PersonSetFragment(name: string, role: string)
    requires Plain(name) && Plain(role)
    ensures SetFragment("node", PersonJson(name, role)) == "node.Name=\"" + name + "\",node.Role=\"" + role + "\""
  {
    var p := "node.";
    var j1 := "{\"Name\":\"";
    var j2 := j1 + name;
    var j3 := j2 + "\",\"Role\":\"";
    var j4 := j3 + role;
    SetOpen(p);
    SetPlainAppend(p, j1, name);
    SetNextKey(p, j2, "Role");
    SetPlainAppend(p, j3, role);
    SetClose(p, j4);
    assert "node" + "." == p;
    ShapeRoleKey();
    ShapePersonSet(name, role);
  }

  /** Reading `c` after `s`: what both scans append and the new flag. */
  lemma Step(s: string, c: char)
    ensures CreateFragment(s + [c]) == CreateFragment(s) + CreateEmit(s, c)
    ensures KeyPosition(s + [c]) == if c == ':' then false else if c == ',' then true else KeyPosition(s)
  {
    CreateFragmentAppend(s, c);
    KeyPositionAppend(s, c);
  }

  lemma SetStep(p: string, s: string, c: char)
    ensures SetBody(p, s + [c]) == SetBody(p, s) + SetEmit(p, s, c)
    ensures KeyPosition(s + [c]) == if c == ':' then false else if c == ',' then true else KeyPosition(s)
  {
    SetBodyAppend(p, s, c);
    KeyPositionAppend(s, c);
  }

  /** `"k":"` read in key position: the key loses its quotes, the value's
      opening quote stays, and the scan leaves key position. */
  lemma CreateKey(s: string, k: string)
    requires KeyPosition(s) && Plain(k)
    ensures CreateFragment(s + ("\"" + k + "\":\"")) == CreateFragment(s) + (k + ":\"")
    ensures !KeyPosition(s + ("\"" + k + "\":\""))
  {
    var s1 := s + ['"'];
    assert CreateFragment(s1) == CreateFragment(s) && KeyPosition(s1) by { Step(s, '"'); }
    CreatePlainAppend(s1, k);
    CreateKeyClose(s1 + k);
    ShapeKey(s, k);
    ShapeAppend(CreateFragment(s), k, ":\"");
  }

  lemma CreateKeyClose(s: string)
    requires KeyPosition(s)
    ensures CreateFragment(s + "\":\"") == CreateFragment(s) + ":\""
    ensures !KeyPosition(s + "\":\"")
  {
    var s1 := s + ['"'];
    var s2 := s1 + [':'];
    var s3 := s2 + ['"'];
    assert CreateFragment(s1) == CreateFragment(s) && KeyPosition(s1) by { Step(s, '"'); }
    assert CreateFragment(s2) == CreateFragment(s1) + [':'] && !KeyPosition(s2) by { Step(s1, ':'); }
    assert CreateFragment(s3) == CreateFragment(s2) + ['"'] && !KeyPosition(s3) by { Step(s2, '"'); }
    ShapeThree(s, '"', ':', '"');
    ShapeThree(CreateFragment(s), ':', '"', '"');
  }

  /** The opening `{"Name":"`. */
  lemma CreateOpen()
    ensures CreateFragment("{\"Name\":\"") == "{Name:\"" && !KeyPosition("{\"Name\":\"")
  {
    var s := "{";
    assert CreateFragment(s) == s && KeyPosition(s) by {
      Step([], '{');
      assert [] + ['{'] == s;
    }
    CreateKey(s, "Name");
    assert s + ("\"" + "Name" + "\":\"") == "{\"Name\":\"";
    assert s + ("Name" + ":\"") == "{Name:\"";
  }

  /** `","k":"` after a value: the value's closing quote and the comma stay. */
  lemma CreateNextKey(s: string, k: string)
    requires !KeyPosition(s) && Plain(k)
    ensures CreateFragment(s + ("\",\"" + k + "\":\"")) == CreateFragment(s) + ("\"," + k + ":\"")
    ensures !KeyPosition(s + ("\",\"" + k + "\":\""))
  {
    var s1 := s + ['"'];
    var s2 := s1 + [','];
    assert CreateFragment(s1) == CreateFragment(s) + ['"'] && !KeyPosition(s1) by { Step(s, '"'); }
    assert CreateFragment(s2) == CreateFragment(s1) + [','] && KeyPosition(s2) by { Step(s1, ','); }
    CreateKey(s2, k);
    ShapeNextKey(s, k);
    ShapeNextKeyOut(CreateFragment(s), k);
  }

  /** The closing `"}` after a value. */
  lemma CreateClose(s: string)
    requires !KeyPosition(s)
    ensures CreateFragment(s + "\"}") == CreateFragment(s) + "\"}"
  {
    var s1 := s + ['"'];
    assert CreateFragment(s1) == CreateFragment(s) + ['"'] && !KeyPosition(s1) by { Step(s, '"'); }
    assert CreateFragment(s1 + ['}']) == CreateFragment(s1) + ['}'] by { Step(s1, '}'); }
    ShapeTwo(s, '"', '}');
    ShapeTwo(CreateFragment(s), '"', '}');
  }

  lemma SetKey(p: string, s: string, k: string)
    requires KeyPosition(s) && Plain(k)
    ensures SetBody(p, s + ("\"" + k + "\":\"")) == SetBody(p, s) + (k + "=\"")
    ensures !KeyPosition(s + ("\"" + k + "\":\""))
  {
    var s1 := s + ['"'];
    assert SetBody(p, s1) == SetBody(p, s) && KeyPosition(s1) by { SetStep(p, s, '"'); }
    SetPlainAppend(p, s1, k);
    SetKeyClose(p, s1 + k);
    ShapeKey(s, k);
    ShapeAppend(SetBody(p, s), k, "=\"");
  }

  lemma SetKeyClose(p: string, s: string)
    requires KeyPosition(s)
    ensures SetBody(p, s + "\":\"") == SetBody(p, s) + "=\""
    ensures !KeyPosition(s + "\":\"")
  {
    var s1 := s + ['"'];
    var s2 := s1 + [':'];
    var s3 := s2 + ['"'];
    assert SetBody(p, s1) == SetBody(p, s) && KeyPosition(s1) by { SetStep(p, s, '"'); }
    assert SetBody(p, s2) == SetBody(p, s1) + "=" && !KeyPosition(s2) by { SetStep(p, s1, ':'); }
    assert SetBody(p, s3) == SetBody(p, s2) + ['"'] && !KeyPosition(s3) by { SetStep(p, s2, '"'); }
    ShapeThree(s, '"', ':', '"');
    ShapeTwoChars(SetBody(p, s));
  }

  lemma SetOpen(p: string)
    ensures SetBody(p, "{\"Name\":\"") == "Name=\"" && !KeyPosition("{\"Name\":\"")
  {
    var s := "{";
    assert SetBody(p, s) == [] && KeyPosition(s) by {
      SetStep(p, [], '{');
      assert [] + ['{'] == s;
    }
    SetKey(p, s, "Name");
    assert s + ("\"" + "Name" + "\":\"") == "{\"Name\":\"";
    assert [] + ("Name" + "=\"") == "Name=\"";
  }

  lemma SetNextKey(p: string, s: string, k: string)
    requires !KeyPosition(s) && Plain(k)
    ensures SetBody(p, s + ("\",\"" + k + "\":\"")) == SetBody(p, s) + ("\"," + p + k + "=\"")
    ensures !KeyPosition(s + ("\",\"" + k + "\":\""))
  {
    var s1 := s + ['"'];
    var s2 := s1 + [','];
    assert SetBody(p, s1) == SetBody(p, s) + ['"'] && !KeyPosition(s1) by { SetStep(p, s, '"'); }
    assert SetBody(p, s2) == SetBody(p, s1) + ([','] + p) && KeyPosition(s2) by { SetStep(p, s1, ','); }
    SetKey(p, s2, k);
    ShapeNextKey(s, k);
    ShapeSetNextKeyOut(SetBody(p, s), p, k);
  }

  lemma SetClose(p: string, s: string)
    requires !KeyPosition(s)
    ensures SetBody(p, s + "\"}") == SetBody(p, s) + "\""
  {
    var s1 := s + ['"'];
    assert SetBody(p, s1) == SetBody(p, s) + ['"'] && !KeyPosition(s1) by { SetStep(p, s, '"'); }
    assert SetBody(p, s1 + ['}']) == SetBody(p, s1) by { SetStep(p, s1, '}'); }
    ShapeTwo(s, '"', '}');
  }

  // Sequence identities used above, each in a context of its own.

  lemma ShapeAppend(x: string, a: string, b: string)
    ensures (x + a) + b == x + (a + b)
  {
  }

  lemma ShapeTwo(x: string, a: char, b: char)
    ensures (x + [a]) + [b] == x + [a, b]
  {
  }

  lemma ShapeThree(x: string, a: char, b: char, c: char)
    ensures ((x + [a]) + [b]) + [c] == x + [a, b, c]
  {
  }

  lemma ShapeTwoChars(x: string)
    ensures (x + "=") + ['"'] == x + "=\""
  {
  }

  lemma ShapeKey(s: string, k: string)
    ensures ((s + ['"']) + k) + "\":\"" == s + ("\"" + k + "\":\"")
  {
  }

  lemma ShapeNextKey(s: string, k: string)
    ensures ((s + ['"']) + [',']) + ("\"" + k + "\":\"") == s + ("\",\"" + k + "\":\"")
  {
  }

  lemma ShapeNextKeyOut(x: string, k: string)
    ensures ((x + ['"']) + [',']) + (k + ":\"") == x + ("\"," + k + ":\"")
  {
  }

  lemma ShapeSetNextKeyOut(x: string, p: string, k: string)
    ensures ((x + ['"']) + ([','] + p)) + (k + "=\"") == x + ("\"," + p + k + "=\"")
  {
  }

  lemma ShapePersonSet(name: string, role: string)
    ensures "node." + (((("Name=\"" + name) + ("\"," + "node." + "Role" + "=\"")) + role) + "\"")
            == "node.Name=\"" + name + "\",node.Role=\"" + role + "\""
  {
  }

  lemma ShapeRoleKey()
    ensures "\",\"" + "Role" + "\":\"" == "\",\"Role\":\""
    ensures "\"," + "Role" + ":\"" == "\",Role:\""
  {
  }
}
