/** The string helpers of the OTML alias pass: quote stripping, value and
    name normalisation, and the lookup of `$name` references in a scope of
    aliases, with its guard against circular definitions. */
module OtmlAlias {
  import opened Text

  /** What the alias pass reports to the log. `Overriding` is the warning;
      the others are errors. None of them stops the pass. */
  datatype Diagnostic =
    | Undefined(name: string)
    | Circular(name: string)
    | Malformed(tag: string)
    | Overriding(name: string)

  predicate IsQuote(c: char) {
    c == '"' || c == '\''
  }

  /** A value of at least two characters that starts and ends with the same
      kind of quote. */
  predicate Quoted(value: string) {
    |value| >= 2 && IsQuote(value[0]) && value[|value| - 1] == value[0]
  }

  /** `stripQuotes`: drops one pair of matching outer quotes. */
  function StripQuotes(value: string): (r: string)
    ensures Quoted(value) ==> |r| == |value| - 2 && value == [value[0]] + r + [value[0]]
    ensures !Quoted(value) ==> r == value
  {
    if Quoted(value) then value[1..|value| - 1] else value
  }

  /** Quoting a string and stripping the quotes gives the string back. */
  lemma StripQuotesRoundTrip(s: string, q: char)
    requires IsQuote(q)
    ensures StripQuotes([q] + s + [q]) == s
  {
    var v := [q] + s + [q];
    assert v[1..|v| - 1] == s;
  }

  /** `normalizeValue`: trims, then strips one pair of quotes. */
  function NormalizeValue(value: string): (r: string)
    ensures |r| <= |value|
    ensures r == Trim(value) || (Quoted(Trim(value)) && r == Trim(value)[1..|Trim(value)| - 1])
  {
    StripQuotes(Trim(value))
  }

  /** A quoted value, padded with white space, normalises to the text between
      the quotes. */
  lemma NormalizeQuoted(pad1: string, s: string, q: char, pad2: string)
    requires IsQuote(q) && IsBlank(pad1) && IsBlank(pad2)
    ensures NormalizeValue(pad1 + [q] + s + [q] + pad2) == s
  {
    var inner := [q] + s + [q];
    assert pad1 + [q] + s + [q] + pad2 == pad1 + inner + pad2;
    TrimPadded(pad1, inner, pad2);
    StripQuotesRoundTrip(s, q);
  }

  /** `isAliasTag`: the tag of an alias definition starts with '&'. */
  predicate IsAliasTag(tag: string) {
    tag != [] && tag[0] == '&'
  }

  /** `normalizeAliasName`: drops one leading '&' and trims. */
  function NormalizeAliasName(alias: string): (r: string)
    ensures Trim(r) == r
    ensures IsAliasTag(alias) ==> r == Trim(alias[1..])
    ensures !IsAliasTag(alias) ==> r == Trim(alias)
  {
    TrimIdempotent(if IsAliasTag(alias) then alias[1..] else alias);
    Trim(if IsAliasTag(alias) then alias[1..] else alias)
  }

  /** A value that refers to an alias: it starts with '$'. */
  predicate IsReference(value: string) {
    value != [] && value[0] == '$'
  }

  /** The alias a reference names: the text after the '$', with an optional
      '&' dropped and white space trimmed, which are the steps of
      `normalizeAliasName`. */
  function ReferencedName(value: string): (r: string)
    requires IsReference(value)
    ensures Trim(r) == r
    ensures |value| >= 2 && value[1] == '&' ==> r == Trim(value[2..])
    ensures !(|value| >= 2 && value[1] == '&') ==> r == Trim(value[1..])
  {
    assert |value| >= 2 ==> value[1..][1..] == value[2..];
    NormalizeAliasName(value[1..])
  }

  /** `$name` and `$&name` name the same alias. */
  lemma ReferenceForms(name: string)
    requires !IsBlank(name) && !IsSpace(name[0]) && name[0] != '&'
    ensures ReferencedName("$" + name) == Trim(name)
    ensures ReferencedName("$&" + name) == Trim(name)
  {
    assert ("$" + name)[1..] == name;
    assert ("$&" + name)[1..] == "&" + name;
    assert ("&" + name)[1..] == name;
  }

  /** The outcome of a lookup and what it logged. */
  datatype Lookup = Lookup(value: Option<string>, log: seq<Diagnostic>)

  lemma RemoveOne(keys: set<string>, visited: set<string>, name: string)
    requires name in keys && name !in visited
    ensures |keys - (visited + {name})| < |keys - visited|
  {
    assert keys - (visited + {name}) == (keys - visited) - {name};
  }

  /** `resolveAliasName`: follows a chain of references from `name` to the
      first value that is not a reference. An empty name, a name already
      being resolved (in `visited`) and an undefined name end the lookup
      with one diagnostic. `visited` is a value here, so it is the same
      after the call as before it, as the source restores it. */
  function ResolveAliasName(name: string, aliases: map<string, string>, visited: set<string>): (r: Lookup)
    ensures r.value.None? <==> |r.log| == 1
    ensures r.value.Some? ==> r.log == [] && !IsReference(r.value.value)
    ensures name == "" ==> r == Lookup(None, [Undefined(name)])
    ensures name != "" && name in visited ==> r == Lookup(None, [Circular(name)])
    ensures name != "" && name !in visited && name !in aliases ==> r == Lookup(None, [Undefined(name)])
    decreases |aliases.Keys - visited|
  {
    if name == "" then Lookup(None, [Undefined(name)])
    else if name in visited then Lookup(None, [Circular(name)])
    else if name !in aliases then Lookup(None, [Undefined(name)])
    else
      var value := NormalizeValue(aliases[name]);
      if IsReference(value) then
        RemoveOne(aliases.Keys, visited, name);
        ResolveAliasName(ReferencedName(value), aliases, visited + {name})
      else Lookup(Some(value), [])
  }

  /** What a definition in the scope says once its value is normalised:
      a plain value, or a reference to another alias. */
  datatype Definition = Plain(value: string) | Reference(target: string)

  function Define(raw: string): (d: Definition)
    ensures d.Plain? <==> !IsReference(NormalizeValue(raw))
    ensures d.Plain? ==> d.value == NormalizeValue(raw)
    ensures d.Reference? ==> d.target == ReferencedName(NormalizeValue(raw))
  {
    var value := NormalizeValue(raw);
    if IsReference(value) then Reference(ReferencedName(value)) else Plain(value)
  }

  /** The scope with every value normalised and classified. */
  function Definitions(aliases: map<string, string>): (defs: map<string, Definition>)
    ensures defs.Keys == aliases.Keys
    ensures forall name :: name in aliases ==> defs[name] == Define(aliases[name])
  {
    map name | name in aliases :: Define(aliases[name])
  }

  /** The lookup as a walk along classified definitions: a reference
      definition of the meaning of `ResolveAliasName`, free of string
      handling. */
  function Follow(name: string, defs: map<string, Definition>, visited: set<string>): (r: Lookup)
    ensures r.value.None? <==> |r.log| == 1
    decreases |defs.Keys - visited|
  {
    if name == "" then Lookup(None, [Undefined(name)])
    else if name in visited then Lookup(None, [Circular(name)])
    else if name !in defs then Lookup(None, [Undefined(name)])
    else match defs[name]
      case Plain(value) => Lookup(Some(value), [])
      case Reference(target) =>
        RemoveOne(defs.Keys, visited, name);
        Follow(target, defs, visited + {name})
  }

  /** `ResolveAliasName` is the walk along the scope's definitions. */
  lemma {:induction false} ResolveAliasNameFollows(name: string, aliases: map<string, string>, visited: set<string>)
    ensures ResolveAliasName(name, aliases, visited) == Follow(name, Definitions(aliases), visited)
    decreases |aliases.Keys - visited|
  {
    var defs := Definitions(aliases);
    if name != "" && name !in visited && name in aliases {
      var value := NormalizeValue(aliases[name]);
      assert defs[name] == Define(aliases[name]);
      if IsReference(value) {
        RemoveOne(aliases.Keys, visited, name);
        ResolveAliasNameFollows(ReferencedName(value), aliases, visited + {name});
      }
    }
  }

  /** `names` is a chain of definitions: every name is defined and not
      empty, and each but the last refers to the next one. */
  ghost predicate Chain(defs: map<string, Definition>, names: seq<string>)
    decreases |names|
  {
    && |names| >= 1
    && (forall i :: 0 <= i < |names| ==> names[i] != "" && names[i] in defs)
    && (|names| >= 2 ==> defs[names[0]] == Reference(names[1]) && Chain(defs, names[1..]))
  }

  /** No name of the chain repeats and none is among `visited`: each name,
      when it is reached, is not yet being resolved. */
  ghost predicate Fresh(names: seq<string>, visited: set<string>)
    decreases |names|
  {
    names == [] || (names[0] !in visited && Fresh(names[1..], visited + {names[0]}))
  }

  /** Following the first link of a chain: the walk from its first name is
      the walk from the second, with the first name being resolved. */
  lemma ChainStep(defs: map<string, Definition>, names: seq<string>, visited: set<string>)
    requires Chain(defs, names) && Fresh(names, visited) && |names| >= 2
    ensures Chain(defs, names[1..]) && Fresh(names[1..], visited + {names[0]})
    ensures names[1..][|names| - 2] == names[|names| - 1]
    ensures Follow(names[0], defs, visited) == Follow(names[1..][0], defs, visited + {names[0]})
  {
  }

  /** The value a chain ends in when its last definition is plain. */
  lemma {:induction false} FollowChain(defs: map<string, Definition>, names: seq<string>, visited: set<string>)
    requires Chain(defs, names) && Fresh(names, visited)
    requires defs[names[|names| - 1]].Plain?
    ensures Follow(names[0], defs, visited) == Lookup(Some(defs[names[|names| - 1]].value), [])
    decreases |names|
  {
    if |names| >= 2 {
      ChainStep(defs, names, visited);
      FollowChain(defs, names[1..], visited + {names[0]});
    }
  }

  /** A chain whose last definition refers back into the chain, or to a
      name already being resolved, ends in a circular-reference diagnostic. */
  lemma {:induction false} FollowDetectsCycle(defs: map<string, Definition>, names: seq<string>, visited: set<string>)
    requires Chain(defs, names) && Fresh(names, visited)
    requires var d := defs[names[|names| - 1]];
      d.Reference? && d.target != "" && (d.target in names || d.target in visited)
    ensures Follow(names[0], defs, visited) == Lookup(None, [Circular(defs[names[|names| - 1]].target)])
    decreases |names|
  {
    var target := defs[names[|names| - 1]].target;
    if |names| >= 2 {
      ChainStep(defs, names, visited);
      assert names == [names[0]] + names[1..];
      FollowDetectsCycle(defs, names[1..], visited + {names[0]});
    } else {
      assert names == [names[0]];
      assert target in visited + {names[0]};
    }
  }

  /** A chain whose last definition refers to an empty or undefined name
      ends in an undefined-variable diagnostic. */
  lemma {:induction false} FollowReportsUndefined(defs: map<string, Definition>, names: seq<string>, visited: set<string>)
    requires Chain(defs, names) && Fresh(names, visited)
    requires var d := defs[names[|names| - 1]];
      d.Reference? && (d.target == "" || (d.target !in names && d.target !in visited && d.target !in defs))
    ensures Follow(names[0], defs, visited) == Lookup(None, [Undefined(defs[names[|names| - 1]].target)])
    decreases |names|
  {
    if |names| >= 2 {
      ChainStep(defs, names, visited);
      assert names == [names[0]] + names[1..];
      FollowReportsUndefined(defs, names[1..], visited + {names[0]});
    } else {
      assert names == [names[0]];
    }
  }

  /** Conversely, every value the walk finds ends a chain of definitions
      that starts at the name looked up. */
  lemma {:induction false} FollowedChain(name: string, defs: map<string, Definition>, visited: set<string>) returns (names: seq<string>)
    requires Follow(name, defs, visited).value.Some?
    ensures Chain(defs, names) && Fresh(names, visited) && names[0] == name
    ensures defs[names[|names| - 1]] == Plain(Follow(name, defs, visited).value.value)
    decreases |defs.Keys - visited|
  {
    if defs[name].Reference? {
      var next := defs[name].target;
      RemoveOne(defs.Keys, visited, name);
      var rest := FollowedChain(next, defs, visited + {name});
      names := [name] + rest;
      assert names[1..] == rest && names[|names| - 1] == rest[|rest| - 1];
    } else {
      names := [name];
    }
  }

  /** What `resolveAliasValue` reports: whether the value counts as a
      reference, and the value it resolves to, with the diagnostics. */
  datatype AliasResult = AliasResult(referenced: bool, resolved: Option<string>, log: seq<Diagnostic>)

  /** `resolveAliasValue`: a value is a reference when, trimmed, it starts
      with '$', names a non-empty alias and the scope is not empty; an
      undefined name is reported here, anything else is looked up with an
      empty `visited`. */
  function ResolveAliasValue(value: string, aliases: map<string, string>): (r: AliasResult)
    ensures r.referenced <==>
      IsReference(Trim(value)) && ReferencedName(Trim(value)) != "" && |aliases| != 0
    ensures !r.referenced ==> r.resolved.None? && r.log == []
    ensures r.referenced ==> (r.resolved.None? <==> |r.log| == 1)
    ensures r.resolved.Some? ==> r.log == [] && !IsReference(r.resolved.value)
    ensures r.referenced ==>
      && r.resolved == ResolveAliasName(ReferencedName(Trim(value)), aliases, {}).value
      && r.log == ResolveAliasName(ReferencedName(Trim(value)), aliases, {}).log
    ensures r.referenced && ReferencedName(Trim(value)) !in aliases ==>
      r.log == [Undefined(ReferencedName(Trim(value)))]
  {
    var trimmed := Trim(value);
    if !IsReference(trimmed) then AliasResult(false, None, [])
    else
      var name := ReferencedName(trimmed);
      if name == "" || |aliases| == 0 then AliasResult(false, None, [])
      else if name !in aliases then AliasResult(true, None, [Undefined(name)])
      else
        var l := ResolveAliasName(name, aliases, {});
        AliasResult(true, l.value, l.log)
  }
}
