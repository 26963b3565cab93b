/** `check_license_field` of the Python backend base: a license field is an
    " and "-list of groups, each an " or "-list of alternatives, possibly
    wrapped in parentheses. The field is free when every group holds a free
    alternative. An alternative is compared after stripping whitespace and
    one trailing '+'; blank alternatives are skipped. The set of free short
    names is a parameter. */
module Licenses {
  import opened Common
  import opened Strings

  /** The separator between groups. */
  const AndSep: string := " and "

  /** The separator between alternatives of a group. */
  const OrSep: string := " or "

  /** The name an alternative is looked up under: None for a blank
      alternative (skipped), otherwise the stripped text without one
      trailing '+'. */
  function LookupName(license: string): (r: Option<string>)
    ensures r.None? <==> |Strip(license)| == 0
    ensures r.Some? ==> Strip(license) == r.value + "+" || (Strip(license) == r.value && r.value[|r.value| - 1] != '+')
  {
    var t := Strip(license);
    if |t| < 1 then None
    else if t[|t| - 1] == '+' then Some(t[..|t| - 1])
    else Some(t)
  }

  /** An alternative names a free license. */
  predicate AlternativeIsFree(license: string, free: set<string>) {
    LookupName(license).Some? && LookupName(license).value in free
  }

  /** A group with its parentheses removed and every other character
      kept. */
  function Unparenthesize(group: string): (r: string)
    ensures '(' !in r && ')' !in r
    ensures forall x :: x in r <==> x in group && x != '(' && x != ')'
    ensures '(' !in group && ')' !in group ==> r == group
  {
    Delete(Delete(group, '('), ')')
  }

  /** The alternatives of a group. */
  function Alternatives(group: string): seq<string>
  {
    Split(Unparenthesize(group), OrSep, None)
  }

  /** Some alternative in the list is free. */
  predicate FreeIn(licenses: seq<string>, free: set<string>)
    decreases |licenses|
  {
    |licenses| > 0 && (AlternativeIsFree(licenses[0], free) || FreeIn(licenses[1..], free))
  }

  /** Some alternative of the group is free. */
  predicate GroupIsFree(group: string, free: set<string>) {
    FreeIn(Alternatives(group), free)
  }

  /** The groups of a license field. */
  function Groups(field: string): seq<string>
  {
    Split(field, AndSep, None)
  }

  /** Every group in the list is free. */
  predicate AllGroupsFree(groups: seq<string>, free: set<string>)
    decreases |groups|
  {
    |groups| == 0 || (GroupIsFree(groups[0], free) && AllGroupsFree(groups[1..], free))
  }

  /** Every group of the field is free. */
  predicate FieldIsFree(field: string, free: set<string>) {
    AllGroupsFree(Groups(field), free)
  }

  /** `check_license_field`. */
  method CheckLicenseField(field: string, free: set<string>) returns (ok: bool)
    ensures ok <==> FieldIsFree(field, free)
  {
    ok := AllFree(Groups(field), free);
    AllGroupsFreeMeaning(Groups(field), free);
  }

  /** For each group in turn, look through its alternatives until a free
      one is found, and give up on the first group without one. An empty
      list of groups is not free; the result is the flag recording that
      some group was free. */
  method AllFree(groups: seq<string>, free: set<string>) returns (ok: bool)
    ensures ok <==> |groups| > 0 && forall k :: 0 <= k < |groups| ==> GroupIsFree(groups[k], free)
  {
    if |groups| == 0 {
      return false;
    }
    var oneFreeGroup := false;
    var i := 0;
    while i < |groups|
      invariant 0 <= i <= |groups|
      invariant forall k :: 0 <= k < i ==> GroupIsFree(groups[k], free)
      invariant oneFreeGroup <==> i > 0
    {
      var groupIsFree := CheckGroup(groups[i], free);
      if groupIsFree {
        oneFreeGroup := true;
      }
      if !groupIsFree {
        return false;
      }
      EveryExtends(groups, i, g => GroupIsFree(g, free));
      i := i + 1;
    }
    ok := oneFreeGroup;
  }

  /** A property of the first `i` members that the next one shares holds
      of the first `i + 1`. */
  lemma EveryExtends<T>(s: seq<T>, i: nat, p: T -> bool)
    requires i < |s| && p(s[i])
    requires forall k :: 0 <= k < i ==> p(s[k])
    ensures forall k :: 0 <= k < i + 1 ==> p(s[k])
  {
  }

  /** The inner loop of `check_license_field` over one group's
      alternatives. */
  method CheckGroup(group: string, free: set<string>) returns (groupIsFree: bool)
    ensures groupIsFree <==> GroupIsFree(group, free)
  {
    groupIsFree := AnyFree(Alternatives(group), free);
    FreeInMeaning(Alternatives(group), free);
  }

  /** Strip each alternative, skip it if blank, drop one trailing '+', and
      stop at the first name in the free set. */
  method AnyFree(licenses: seq<string>, free: set<string>) returns (found: bool)
    ensures found <==> exists k :: 0 <= k < |licenses| && AlternativeIsFree(licenses[k], free)
  {
    found := false;
    var j := 0;
    while j < |licenses|
      invariant 0 <= j <= |licenses|
      invariant forall k :: 0 <= k < j ==> !AlternativeIsFree(licenses[k], free)
    {
      var name := NormalizeLicense(licenses[j]);
      if name.Some? && name.value in free {
        assert AlternativeIsFree(licenses[j], free);
        found := true;
        return;
      }
      EveryExtends(licenses, j, l => !AlternativeIsFree(l, free));
      j := j + 1;
    }
  }

  /** The body of the inner loop before the lookup: strip the alternative,
      give up on it if nothing is left, and drop one trailing '+'. */
  method NormalizeLicense(license: string) returns (name: Option<string>)
    ensures name == LookupName(license)
  {
    var t := Strip(license);
    if |t| < 1 {
      return None;
    }
    if t[|t| - 1] == '+' {
      t := t[..|t| - 1];
    }
    name := Some(t);
  }

  /** A list of alternatives is free exactly when one of its members is. */
  lemma {:induction false} FreeInMeaning(licenses: seq<string>, free: set<string>)
    ensures FreeIn(licenses, free) <==> exists k :: 0 <= k < |licenses| && AlternativeIsFree(licenses[k], free)
    decreases |licenses|
  {
    if |licenses| > 0 {
      FreeInMeaning(licenses[1..], free);
      if !AlternativeIsFree(licenses[0], free) {
        forall k | 1 <= k < |licenses|
          ensures licenses[k] == licenses[1..][k - 1]
        {
        }
      }
    }
  }

  /** A list of groups is free exactly when each of its members is. */
  lemma {:induction false} AllGroupsFreeMeaning(groups: seq<string>, free: set<string>)
    ensures AllGroupsFree(groups, free) <==> forall k :: 0 <= k < |groups| ==> GroupIsFree(groups[k], free)
    decreases |groups|
  {
    if |groups| > 0 {
      AllGroupsFreeMeaning(groups[1..], free);
      forall k | 1 <= k < |groups|
        ensures groups[k] == groups[1..][k - 1]
      {
      }
    }
  }

  /** Splitting text too short to hold the separator gives the text alone. */
  lemma SplitShort(s: string, sep: string)
    requires |sep| > 0 && |s| < |sep|
    ensures Split(s, sep, None) == [s]
  {
    assert FindFirst(s, sep).None?;
  }

  /** An empty field is not free. */
  lemma EmptyFieldNotFree(free: set<string>)
    ensures !FieldIsFree("", free)
  {
    SplitShort("", AndSep);
    assert Groups("") == [""];
    assert Unparenthesize("") == "";
    SplitShort("", OrSep);
    assert Alternatives("") == [""];
    assert Strip("") == "";
    assert !AlternativeIsFree("", free);
    assert [""][1..] == [];
  }

  /** A trailing '+' does not change whether a license is free: for a name
      with no surrounding whitespace and no '+' of its own at the end, `X+`
      is free exactly when `X` is. */
  lemma PlusIsIgnored(x: string, free: set<string>)
    requires |x| > 0 && !IsSpace(x[0]) && !IsSpace(x[|x| - 1]) && x[|x| - 1] != '+'
    ensures AlternativeIsFree(x + "+", free) <==> AlternativeIsFree(x, free)
    ensures AlternativeIsFree(x, free) <==> x in free
  {
    StripUnchanged(x);
    StripUnchanged(x + "+");
    assert (x + "+")[..|x|] == x;
  }

  /** Parentheses around a group do not matter. */
  lemma ParenthesesIgnored(group: string, free: set<string>)
    ensures Unparenthesize("(" + group + ")") == Unparenthesize(group)
    ensures GroupIsFree("(" + group + ")", free) <==> GroupIsFree(group, free)
  {
    var g := Delete(group, '(');
    DeleteOpen(group);
    DeleteClose(g);
    assert Alternatives("(" + group + ")") == Alternatives(group);
  }

  /** Deleting '(' from a parenthesised text. */
  lemma DeleteOpen(group: string)
    ensures Delete("(" + group + ")", '(') == Delete(group, '(') + ")"
  {
    DeleteAppend("(" + group, ")", '(');
    DeleteAppend("(", group, '(');
    assert Delete("(", '(') == "";
    assert Delete(")", '(') == ")";
    assert "" + Delete(group, '(') == Delete(group, '(');
  }

  /** Deleting ')' from a text with a closing parenthesis appended. */
  lemma DeleteClose(g: string)
    ensures Delete(g + ")", ')') == Delete(g, ')')
  {
    DeleteAppend(g, ")", ')');
    assert Delete(")", ')') == "";
    assert Delete(g, ')') + "" == Delete(g, ')');
  }

  /** A field without " and " is one group. */
  lemma SingleGroup(field: string, free: set<string>)
    requires FindFirst(field, AndSep).None?
    ensures FieldIsFree(field, free) <==> GroupIsFree(field, free)
  {
    assert Groups(field) == [field];
    assert [field][0] == field && [field][1..] == [];
    assert AllGroupsFree([field], free) <==> GroupIsFree(field, free);
  }
}
