/** Names derived from a field's name, and the proto3 check that keeps them apart. */
module FieldNames {

  function ToUpper(c: char): char
  {
    if 'a' <= c <= 'z' then c - 'a' + 'A' else c
  }

  function ToLower(c: char): char
  {
    if 'A' <= c <= 'Z' then c - 'A' + 'a' else c
  }

  /** The name without underscores; a letter after an underscore is capitalized, and
      so is the first when `capitalize` says so. */
  function Joined(name: string, capitalize: bool): string
  {
    if name == "" then ""
    else if name[0] == '_' then Joined(name[1..], true)
    else [if capitalize then ToUpper(name[0]) else name[0]] + Joined(name[1..], false)
  }

  function LowerFirst(name: string): string
  {
    if name == "" then "" else [ToLower(name[0])] + name[1..]
  }

  function JsonName(name: string): string
  {
    Joined(name, false)
  }

  function CamelCase(name: string, lowerFirst: bool): string
  {
    if lowerFirst then LowerFirst(Joined(name, false)) else Joined(name, true)
  }

  /** What the check compares. */
  function Squashed(name: string): string
  {
    if name == "" then ""
    else if name[0] == '_' then Squashed(name[1..])
    else [ToLower(name[0])] + Squashed(name[1..])
  }

  lemma {:induction false} SquashedJoined(name: string, capitalize: bool)
    ensures Squashed(Joined(name, capitalize)) == Squashed(name)
  {
    if name != "" {
      SquashedJoined(name[1..], name[0] == '_');
      if name[0] != '_' {
        var c := if capitalize then ToUpper(name[0]) else name[0];
        assert Joined(name, capitalize)[1..] == Joined(name[1..], false);
        assert ToLower(c) == ToLower(name[0]) && c != '_';
      }
    }
  }

  lemma SquashedLowerFirst(name: string)
    ensures Squashed(LowerFirst(name)) == Squashed(name)
  {
    if name != "" {
      assert LowerFirst(name)[1..] == name[1..];
    }
  }

  /** Neither derivation changes what the check compares. */
  lemma DerivedNamesSquashAlike(name: string, lowerFirst: bool)
    ensures Squashed(JsonName(name)) == Squashed(name)
    ensures Squashed(CamelCase(name, lowerFirst)) == Squashed(name)
  {
    SquashedJoined(name, false);
    SquashedJoined(name, true);
    SquashedLowerFirst(Joined(name, false));
  }

  // ----- What the derived names are, character by character ----------------------

  /** How many characters are not underscores. */
  function Letters(name: string): nat
  {
    if name == "" then 0 else Letters(name[1..]) + if name[0] == '_' then 0 else 1
  }

  lemma {:induction false} LettersOfPrefix(name: string, i: nat)
    requires i < |name| && name[i] != '_'
    ensures Letters(name[..i]) < Letters(name)
  {
    if i > 0 {
      LettersOfPrefix(name[1..], i - 1);
      assert name[..i][1..] == name[1..][..i - 1];
    }
  }

  /** Each character but underscores is there, in order, and nothing else is; it is upper
      case when it follows an underscore, or comes first and `capitalize` says so. */
  lemma {:induction false} JoinedAt(name: string, capitalize: bool, i: nat)
    requires i < |name| && name[i] != '_'
    ensures Letters(name[..i]) < |Joined(name, capitalize)| == Letters(name)
    ensures var c := Joined(name, capitalize)[Letters(name[..i])];
      var raised := if i == 0 then capitalize else name[i - 1] == '_';
      c == if raised && 'a' <= name[i] <= 'z' then name[i] - 'a' + 'A' else name[i]
  {
    LettersOfPrefix(name, i);
    if i == 0 {
      JoinedLength(name, capitalize);
    } else {
      JoinedAt(name[1..], name[0] == '_', i - 1);
      assert name[..i][1..] == name[1..][..i - 1];
    }
  }

  lemma {:induction false} JoinedLength(name: string, capitalize: bool)
    ensures |Joined(name, capitalize)| == Letters(name)
  {
    if name != "" { JoinedLength(name[1..], name[0] == '_'); }
  }

  lemma {:induction false} SquashedAt(name: string, i: nat)
    requires i < |name| && name[i] != '_'
    ensures Letters(name[..i]) < |Squashed(name)| == Letters(name)
    ensures Squashed(name)[Letters(name[..i])] == if 'A' <= name[i] <= 'Z' then name[i] - 'A' + 'a' else name[i]
  {
    LettersOfPrefix(name, i);
    if i == 0 {
      SquashedLength(name);
    } else {
      SquashedAt(name[1..], i - 1);
      assert name[..i][1..] == name[1..][..i - 1];
    }
  }

  lemma {:induction false} SquashedLength(name: string)
    ensures |Squashed(name)| == Letters(name)
  {
    if name != "" { SquashedLength(name[1..]); }
  }

  /** The JSON name: a letter is raised exactly when it follows an underscore. */
  lemma JsonNameMeans(name: string)
    ensures |JsonName(name)| == Letters(name)
    ensures forall i :: 0 <= i < |name| && name[i] != '_' ==>
      Letters(name[..i]) < Letters(name) &&
      JsonName(name)[Letters(name[..i])] ==
        if i > 0 && name[i - 1] == '_' && 'a' <= name[i] <= 'z' then name[i] - 'a' + 'A' else name[i]
  {
    JoinedLength(name, false);
    forall i | 0 <= i < |name| && name[i] != '_'
      ensures Letters(name[..i]) < Letters(name) &&
        JsonName(name)[Letters(name[..i])] ==
          if i > 0 && name[i - 1] == '_' && 'a' <= name[i] <= 'z' then name[i] - 'a' + 'A' else name[i]
    {
      JoinedAt(name, false, i);
    }
  }

  /** The camel-case name: the same, but for the first character, which is lower case if
      that was asked for and upper case otherwise. */
  lemma CamelCaseMeans(name: string, lowerFirst: bool, i: nat)
    requires i < |name| && name[i] != '_'
    ensures Letters(name[..i]) < |CamelCase(name, lowerFirst)| == Letters(name)
    ensures var at := Letters(name[..i]);
      CamelCase(name, lowerFirst)[at] ==
        if at == 0 && lowerFirst then (if 'A' <= name[i] <= 'Z' then name[i] - 'A' + 'a' else name[i])
        else if (at == 0 || name[i - 1] == '_') && 'a' <= name[i] <= 'z' then name[i] - 'a' + 'A'
        else name[i]
  {
    JoinedAt(name, !lowerFirst, i);
    FirstLetter(name, i);
    assert Letters(name[..i]) == 0 && i > 0 ==> name[i - 1] == '_';
    assert i == 0 ==> Letters(name[..i]) == 0;
  }

  /** Only underscores come before the first letter. */
  lemma {:induction false} FirstLetter(name: string, i: nat)
    requires i < |name| && name[i] != '_'
    ensures Letters(name[..i]) == 0 <==> forall j :: 0 <= j < i ==> name[j] == '_'
  {
    if i > 0 {
      FirstLetter(name[1..], i - 1);
      assert name[..i][1..] == name[1..][..i - 1];
      assert forall j :: 0 < j < i ==> name[j] == name[1..][j - 1];
    }
  }

  // ----- The loops -------------------------------------------------------------

  lemma {:induction false} JoinedAppend(name: string, capitalize: bool, c: char)
    ensures Joined(name + [c], capitalize) ==
      Joined(name, capitalize) + Joined([c], if name == "" then capitalize else name[|name| - 1] == '_')
  {
    if name == "" {
      assert name + [c] == [c];
    } else {
      JoinedAppend(name[1..], name[0] == '_', c);
      assert (name + [c])[1..] == name[1..] + [c];
    }
  }

  /** The state of the loops after `name`: whether the next letter is capitalized. */
  predicate CapitalizeNext(name: string, capitalize: bool)
  {
    if name == "" then capitalize else name[|name| - 1] == '_'
  }

  method ToCamelCase(input: string, lowerFirst: bool) returns (result: string)
    ensures result == CamelCase(input, lowerFirst)
  {
    var capitalizeNext := !lowerFirst;
    result := "";
    for i := 0 to |input|
      invariant result == Joined(input[..i], !lowerFirst)
      invariant capitalizeNext == CapitalizeNext(input[..i], !lowerFirst)
    {
      JoinedAppend(input[..i], !lowerFirst, input[i]);
      assert input[..i + 1] == input[..i] + [input[i]];
      if input[i] == '_' {
        capitalizeNext := true;
      } else if capitalizeNext {
        result := result + [ToUpper(input[i])];
        capitalizeNext := false;
      } else {
        result := result + [input[i]];
      }
    }
    assert input[..|input|] == input;
    if lowerFirst && result != "" {
      result := result[0 := ToLower(result[0])];
    }
  }

  method ToJsonName(input: string) returns (result: string)
    ensures result == JsonName(input)
  {
    var capitalizeNext := false;
    result := "";
    for i := 0 to |input|
      invariant result == Joined(input[..i], false)
      invariant capitalizeNext == CapitalizeNext(input[..i], false)
    {
      JoinedAppend(input[..i], false, input[i]);
      assert input[..i + 1] == input[..i] + [input[i]];
      if input[i] == '_' {
        capitalizeNext := true;
      } else if capitalizeNext {
        result := result + [ToUpper(input[i])];
        capitalizeNext := false;
      } else {
        result := result + [input[i]];
      }
    }
    assert input[..|input|] == input;
  }

  lemma {:induction false} SquashedAppend(name: string, c: char)
    ensures Squashed(name + [c]) == Squashed(name) + Squashed([c])
  {
    if name == "" {
      assert name + [c] == [c];
    } else {
      SquashedAppend(name[1..], c);
      assert (name + [c])[1..] == name[1..] + [c];
    }
  }

  method ToLowercaseWithoutUnderscores(name: string) returns (result: string)
    ensures result == Squashed(name)
  {
    result := "";
    for i := 0 to |name|
      invariant result == Squashed(name[..i])
    {
      SquashedAppend(name[..i], name[i]);
      assert name[..i + 1] == name[..i] + [name[i]];
      if name[i] != '_' {
        if 'A' <= name[i] <= 'Z' {
          result := result + [name[i] - 'A' + 'a'];
        } else {
          result := result + [name[i]];
        }
      }
    }
    assert name[..|name|] == name;
  }

  // ----- The check -------------------------------------------------------------

  /** Some earlier field squashes to the same name. */
  predicate Conflicts(names: seq<string>, i: nat)
    requires i < |names|
  {
    exists j :: 0 <= j < i && Squashed(names[j]) == Squashed(names[i])
  }

  /** The first field, from index `j` on, that squashes like field `i`. */
  function FirstLike(names: seq<string>, i: nat, j: nat): (first: nat)
    requires j <= i < |names|
    ensures j <= first <= i && Squashed(names[first]) == Squashed(names[i])
    ensures forall k :: j <= k < first ==> Squashed(names[k]) != Squashed(names[i])
    decreases i - j
  {
    if Squashed(names[j]) == Squashed(names[i]) then j else FirstLike(names, i, j + 1)
  }

  /** Each conflicting field among the first `n`, with the first field of its name. */
  function Reported(names: seq<string>, n: nat): seq<(nat, nat)>
    requires n <= |names|
  {
    if n == 0 then []
    else if Conflicts(names, n - 1) then Reported(names, n - 1) + [(n - 1, FirstLike(names, n - 1, 0))]
    else Reported(names, n - 1)
  }

  /** ValidateProto3Message, the names. */
  method CheckFieldNames(names: seq<string>) returns (errors: seq<(nat, nat)>)
    ensures errors == Reported(names, |names|)
  {
    var nameToField: map<string, nat> := map[];
    errors := [];
    for i := 0 to |names|
      invariant Indexed(names, i, nameToField)
      invariant errors == Reported(names, i)
    {
      var lowercaseName := ToLowercaseWithoutUnderscores(names[i]);
      if lowercaseName in nameToField {
        FieldClashes(names, i, nameToField);
        errors := errors + [(i, nameToField[lowercaseName])];
      } else {
        FieldIsNew(names, i, nameToField);
        nameToField := nameToField[lowercaseName := i];
      }
    }
  }

  /** The map after `n` fields: each squashed name, and the first field that has it. */
  predicate Indexed(names: seq<string>, n: nat, nameToField: map<string, nat>)
    requires n <= |names|
  {
    && (forall s :: s in nameToField ==>
          nameToField[s] < n && Squashed(names[nameToField[s]]) == s && !Conflicts(names, nameToField[s]))
    && (forall j :: 0 <= j < n ==> Squashed(names[j]) in nameToField)
  }

  lemma FieldClashes(names: seq<string>, i: nat, nameToField: map<string, nat>)
    requires i < |names| && Indexed(names, i, nameToField) && Squashed(names[i]) in nameToField
    ensures Conflicts(names, i) && nameToField[Squashed(names[i])] == FirstLike(names, i, 0)
    ensures Indexed(names, i + 1, nameToField)
  {
  }

  lemma FieldIsNew(names: seq<string>, i: nat, nameToField: map<string, nat>)
    requires i < |names| && Indexed(names, i, nameToField) && Squashed(names[i]) !in nameToField
    ensures !Conflicts(names, i) && Indexed(names, i + 1, nameToField[Squashed(names[i]) := i])
  {
  }

  /** The check passes exactly when all squashed names differ. */
  lemma {:induction false} ReportedNothing(names: seq<string>, n: nat)
    requires n <= |names|
    ensures Reported(names, n) == [] <==>
            forall i, j :: 0 <= i < j < n ==> Squashed(names[i]) != Squashed(names[j])
  {
    if n > 0 { ReportedNothing(names, n - 1); }
  }

  /** Exactly the fields with an earlier field of the same squashed name are reported, each
      with the first such field. */
  lemma {:induction false} ReportedMeans(names: seq<string>, n: nat)
    requires n <= |names|
    ensures forall i, j :: (i, j) in Reported(names, n) <==>
      && 0 <= j < i < n && Squashed(names[j]) == Squashed(names[i])
      && forall k :: 0 <= k < j ==> Squashed(names[k]) != Squashed(names[i])
  {
    if n > 0 { ReportedMeans(names, n - 1); }
  }

  /** Fields that pass have different JSON names and different camel-case names. */
  lemma CheckKeepsNamesApart(names: seq<string>, i: nat, j: nat)
    requires Reported(names, |names|) == [] && i < j < |names|
    ensures JsonName(names[i]) != JsonName(names[j])
    ensures CamelCase(names[i], true) != CamelCase(names[j], true)
    ensures CamelCase(names[i], false) != CamelCase(names[j], false)
  {
    ReportedNothing(names, |names|);
    DerivedNamesSquashAlike(names[i], true);
    DerivedNamesSquashAlike(names[j], true);
    DerivedNamesSquashAlike(names[i], false);
    DerivedNamesSquashAlike(names[j], false);
  }

  /** The check is stricter than that: it rejects names whose derived names differ. */
  lemma CheckIsStricter()
    ensures Conflicts(["a_b", "ab"], 1) && JsonName("a_b") == "aB" && JsonName("ab") == "ab"
    ensures CamelCase("a_b", true) != CamelCase("ab", true)
  {
    var names := ["a_b", "ab"];
    assert "a_b"[1..] == "_b" && "_b"[1..] == "b" && "ab"[1..] == "b" && "b"[1..] == "";
    assert Joined("b", true) == "B" && Joined("b", false) == "b";
    assert Squashed("b") == "b" && Squashed("_b") == "b";
    assert Squashed(names[0]) == "ab" && Squashed(names[1]) == "ab";
    assert LowerFirst("aB")[1] == 'B' && LowerFirst("ab")[1] == 'b';
  }
}
