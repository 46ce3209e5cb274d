/** Argument names for generated bindings (normalizeArgs in abigen/bindv2.go). Names are Go
    strings, one char for each byte; camel stands for ToCamelCase of the go-ethereum abi
    package and may be any function. */
module NormalizeArgs {
  import opened Text
  import opened StructTable

  datatype Argument = Argument(name: string, typ: AbiType, indexed: bool)

  predicate IsKeyWord(arg: string) {
    arg in {
      "break", "case", "chan", "const", "continue", "default", "defer", "else", "fallthrough", "for",
      "func", "go", "goto", "if", "import", "interface", "iota", "map", "make", "new", "package",
      "range", "return", "select", "struct", "switch", "type", "var"}
  }

  function Generic(i: nat): string {
    "arg" + Decimal(i)
  }

  /** Lower-cases the first byte; a byte that is no ASCII character becomes the three bytes of
      the Unicode replacement character. */
  function LowerFirst(s: string): (r: string)
    requires s != []
    ensures r != []
  {
    var c := s[0];
    (if 'A' <= c <= 'Z' then [(c as int + 32) as char]
     else if c as int < 128 then [c]
     else ['\U{EF}', '\U{BF}', '\U{BD}']) + s[1..]
  }

  /** The name an argument gets before clashes are resolved. */
  function BaseName(camel: string -> string, i: nat, name: string): (r: string)
    ensures r != []
  {
    var cased := camel(if IsKeyWord(name) then Generic(i) else name);
    if cased == "" then Generic(i) else LowerFirst(cased)
  }

  ghost function NoShorter(used: set<string>, n: nat): set<string> {
    set u | u in used && |u| >= n
  }

  lemma LongerLeavesFewer(used: set<string>, name: string, longer: string)
    requires name in used && |longer| > |name|
    ensures |NoShorter(used, |longer|)| < |NoShorter(used, |name|)|
  {
    var a, b := NoShorter(used, |longer|), NoShorter(used, |name|);
    assert name in b && name !in a && a <= b;
    assert |b| == |a| + |b - a|;
  }

  /** Appends a running number until the name is unused. Numbers pile up on the name tried last. */
  function FreshName(name: string, index: nat, used: set<string>): (r: string)
    ensures r !in used
    ensures name <= r
    ensures r == name <==> name !in used
    decreases |NoShorter(used, |name|)|
  {
    if name !in used then name
    else
      LongerLeavesFewer(used, name, name + Decimal(index));
      FreshName(name + Decimal(index), index + 1, used)
  }

  function BaseNames(camel: string -> string, args: seq<Argument>): (r: seq<string>)
    ensures |r| == |args|
  {
    seq(|args|, i requires 0 <= i < |args| => BaseName(camel, i, args[i].name))
  }

  /** Resolves the clashes of the names one after the other when the names in used are taken. */
  function Unclash(names: seq<string>, used: set<string>): (r: seq<string>)
    ensures |r| == |names|
    decreases names
  {
    if names == [] then []
    else
      var name := FreshName(names[0], 0, used);
      [name] + Unclash(names[1..], used + {name})
  }

  function Names(camel: string -> string, args: seq<Argument>): (r: seq<string>)
    ensures |r| == |args|
  {
    Unclash(BaseNames(camel, args), {})
  }

  function Normalized(camel: string -> string, args: seq<Argument>): (r: seq<Argument>)
    ensures |r| == |args|
  {
    seq(|args|, i requires 0 <= i < |args| => args[i].(name := Names(camel, args)[i]))
  }

  /** The first half of the loop body. */
  method ChooseName(camel: string -> string, i: nat, original: string) returns (name: string)
    ensures name == BaseName(camel, i, original)
  {
    name := original;
    if IsKeyWord(name) {
      name := Generic(i);
    }
    name := camel(name);
    if name == "" {
      name := Generic(i);
    } else {
      name := LowerFirst(name);
    }
  }

  /** The renaming loop: it ends for every finite set of used names. */
  method MakeUnused(base: string, used: set<string>) returns (name: string)
    ensures name == FreshName(base, 0, used)
  {
    name := base;
    var index := 0;
    while name in used
      invariant FreshName(name, index, used) == FreshName(base, 0, used)
      decreases |NoShorter(used, |name|)|
    {
      LongerLeavesFewer(used, name, name + Decimal(index));
      name := name + Decimal(index);
      index := index + 1;
    }
  }

  /** The name that the loop gives to one argument. */
  function ChosenName(camel: string -> string, i: nat, original: string, used: set<string>): string {
    FreshName(BaseName(camel, i, original), 0, used)
  }

  /** The body of the loop over the arguments. */
  method NameArgument(camel: string -> string, i: nat, original: string, used: set<string>) returns (name: string)
    ensures name == ChosenName(camel, i, original, used)
  {
    name := ChooseName(camel, i, original);
    name := MakeUnused(name, used);
  }

  /** The names from i on are those that the loop is going to choose. */
  ghost predicate NamesLeft(camel: string -> string, args: seq<Argument>, used: set<string>, i: nat)
    requires i <= |args|
  {
    Unclash(BaseNames(camel, args)[i..], used) == Names(camel, args)[i..]
  }

  lemma AllNamesLeft(camel: string -> string, args: seq<Argument>)
    ensures NamesLeft(camel, args, {}, 0)
  {
    assert BaseNames(camel, args)[0..] == BaseNames(camel, args) && Names(camel, args)[0..] == Names(camel, args);
  }

  lemma NextName(camel: string -> string, args: seq<Argument>, used: set<string>, i: nat)
    requires i < |args| && NamesLeft(camel, args, used, i)
    ensures Names(camel, args)[i] == ChosenName(camel, i, args[i].name, used)
    ensures NamesLeft(camel, args, used + {Names(camel, args)[i]}, i + 1)
  {
    var bases, names := BaseNames(camel, args), Names(camel, args);
    assert bases[i..][0] == bases[i] && bases[i..][1..] == bases[i + 1..];
    assert names[i..][0] == names[i] && names[i..][1..] == names[i + 1..];
  }

  /** The arguments before i have their names, the others are as they were. */
  ghost predicate NamedUpTo(camel: string -> string, input: seq<Argument>, i: nat, out: seq<Argument>) {
    |out| == |input| && forall k | 0 <= k < |out| :: out[k] == if k < i then Normalized(camel, input)[k] else input[k]
  }

  lemma NameOneMore(camel: string -> string, input: seq<Argument>, i: nat, out: seq<Argument>, name: string)
    requires i < |input| && NamedUpTo(camel, input, i, out) && name == Names(camel, input)[i]
    ensures NamedUpTo(camel, input, i + 1, out[i := out[i].(name := name)])
  {
  }

  /** The loop over the arguments, in place. */
  method NameArguments(camel: string -> string, out: array<Argument>)
    modifies out
    ensures out[..] == Normalized(camel, old(out[..]))
  {
    ghost var input := out[..];
    var used: set<string> := {};
    AllNamesLeft(camel, input);
    for i := 0 to out.Length
      invariant NamesLeft(camel, input, used, i)
      invariant NamedUpTo(camel, input, i, out[..])
    {
      NextName(camel, input, used, i);
      assert out[..][i] == input[i];
      var name := NameArgument(camel, i, out[i].name, used);
      NameOneMore(camel, input, i, out[..], name);
      used := used + {name};
      ghost var named := out[..][i := out[i].(name := name)];
      out[i] := out[i].(name := name);
      assert out[..] == named;
    }
    assert out[..] == Normalized(camel, input);
  }

  /** Works on a copy; the arguments passed in stay as they are. */
  method Normalize(camel: string -> string, args: array<Argument>) returns (out: array<Argument>)
    ensures fresh(out)
    ensures out[..] == Normalized(camel, args[..])
  {
    out := new Argument[args.Length](i requires 0 <= i < args.Length reads args => args[i]);
    assert out[..] == args[..];
    NameArguments(camel, out);
  }

  // ---------------------------------------------------------------- properties

  ghost predicate Distinct(names: seq<string>) {
    forall i, j | 0 <= i < j < |names| :: names[i] != names[j]
  }

  lemma {:induction false} UnclashExtends(names: seq<string>, used: set<string>, k: nat)
    requires k < |names|
    ensures Unclash(names, used)[k] !in used && names[k] <= Unclash(names, used)[k]
  {
    if k > 0 {
      UnclashExtends(names[1..], used + {Unclash(names, used)[0]}, k - 1);
    }
  }

  lemma {:induction false} UnclashIsDistinct(names: seq<string>, used: set<string>)
    ensures Distinct(Unclash(names, used))
  {
    if names != [] {
      var r := Unclash(names, used);
      UnclashIsDistinct(names[1..], used + {r[0]});
      forall j | 0 < j < |r| ensures r[j] != r[0] {
        UnclashExtends(names[1..], used + {r[0]}, j - 1);
      }
      assert r == [r[0]] + Unclash(names[1..], used + {r[0]});
    }
  }

  lemma {:induction false} DistinctNamesStay(names: seq<string>, used: set<string>)
    requires Distinct(names) && forall n | n in names :: n !in used
    ensures Unclash(names, used) == names
  {
    if names != [] {
      DistinctNamesStay(names[1..], used + {names[0]});
    }
  }

  /** For every argument list: the new names are pairwise distinct, none is empty, each extends
      the name its argument would have had alone, and nothing but names changes. */
  lemma NormalizedFacts(camel: string -> string, args: seq<Argument>)
    ensures var out := Normalized(camel, args);
            && (forall i, j | 0 <= i < j < |out| :: out[i].name != out[j].name)
            && (forall i | 0 <= i < |out| ::
                 && out[i].name != ""
                 && BaseName(camel, i, args[i].name) <= out[i].name
                 && out[i].typ == args[i].typ && out[i].indexed == args[i].indexed)
  {
    var bases := BaseNames(camel, args);
    UnclashIsDistinct(bases, {});
    forall i | 0 <= i < |args| ensures bases[i] <= Names(camel, args)[i] {
      UnclashExtends(bases, {}, i);
    }
  }

  /** Nothing is renamed beyond the base names exactly when the base names do not clash. */
  lemma RenamesNothingExactly(camel: string -> string, args: seq<Argument>)
    ensures Names(camel, args) == BaseNames(camel, args) <==> Distinct(BaseNames(camel, args))
  {
    UnclashIsDistinct(BaseNames(camel, args), {});
    if Distinct(BaseNames(camel, args)) {
      DistinctNamesStay(BaseNames(camel, args), {});
    }
  }

  function LoweredFirst(s: string): string
    requires s != ""
  {
    Lower(s[..1]) + s[1..]
  }

  /** Only the first byte changes: to lower case, or to the bytes of U+FFFD when it is no ASCII character. */
  lemma LowerFirstExactly(s: string)
    requires s != ""
    ensures LowerFirst(s) == if s[0] as int < 128 then LoweredFirst(s) else "\U{EF}\U{BF}\U{BD}" + s[1..]
  {
    assert Lower(s[..1]) == [LowerChar(s[0])];
  }

  /** Camel-cased names that are distinct, non-empty and start with an ASCII character other than
      a lower-case letter are only decapitalised. */
  lemma DistinctCamelNamesStay(camel: string -> string, args: seq<Argument>)
    requires forall i | 0 <= i < |args| :: !IsKeyWord(args[i].name)
    requires forall i | 0 <= i < |args| :: Capitalised(camel(args[i].name))
    requires forall i, j | 0 <= i < j < |args| :: camel(args[i].name) != camel(args[j].name)
    ensures forall i | 0 <= i < |args| ::
              var c := camel(args[i].name); c != "" && Names(camel, args)[i] == Lower(c[..1]) + c[1..]
  {
    forall i | 0 <= i < |args| ensures LowerFirst(camel(args[i].name)) == LoweredFirst(camel(args[i].name)) {
      LowerFirstExactly(camel(args[i].name));
    }
    var bases := BaseNames(camel, args);
    forall i, j | 0 <= i < j < |args| ensures bases[i] != bases[j] {
      if bases[i] == bases[j] {
        LowerFirstInjective(camel(args[i].name), camel(args[j].name));
      }
    }
    RenamesNothingExactly(camel, args);
  }

  predicate Capitalised(s: string) {
    s != "" && !('a' <= s[0] <= 'z') && s[0] as int < 128
  }

  lemma LowerFirstInjective(a: string, b: string)
    requires Capitalised(a) && Capitalised(b) && LowerFirst(a) == LowerFirst(b)
    ensures a == b
  {
    assert LowerFirst(a)[0] == LowerFirst(b)[0];
    assert a[1..] == LowerFirst(a)[1..] == LowerFirst(b)[1..] == b[1..];
    assert a == [a[0]] + a[1..] && b == [b[0]] + b[1..];
  }

  /** Distinct camel-cased names alone are not enough: a generic name given to an unnamed
      argument can take the name of a later one. */
  lemma GenericNameClashes(camel: string -> string, t: AbiType)
    requires camel("") == "" && camel("arg0") == "Arg0"
    ensures var args := [Argument("", t, false), Argument("arg0", t, false)];
            && camel(args[0].name) != camel(args[1].name)
            && Names(camel, args) == ["arg0", "arg00"]
  {
    var args := [Argument("", t, false), Argument("arg0", t, false)];
    assert Decimal(0) == "0";
    assert BaseName(camel, 0, "") == "arg0";
    assert LowerFirst("Arg0") == "arg0";
    assert BaseName(camel, 1, "arg0") == "arg0";
    assert BaseNames(camel, args) == ["arg0", "arg0"];
    UnclashTwins("arg0");
    assert "arg0" + "0" == "arg00";
  }

  lemma UnclashTwins(name: string)
    ensures Unclash([name, name], {}) == [name, name + "0"]
  {
    assert Decimal(0) == "0";
    assert FreshName(name + "0", 1, {name}) == name + "0";
    assert FreshName(name, 0, {name}) == name + "0";
    assert [name, name][1..] == [name];
    assert {} + {name} == {name};
    assert Unclash([name], {name}) == [name + "0"] + Unclash([], {name, name + "0"});
  }

  // ------------------------------------------------------------ which name it is

  /** The names that the renaming loop tries one after the other: numbers pile up behind the name. */
  function Tried(name: string, k: nat): string {
    if k == 0 then name else Tried(name, k - 1) + Decimal(k - 1)
  }

  /** The chosen name is the first of those that is unused. */
  lemma {:induction false} FirstUnused(name: string, k: nat, used: set<string>) returns (n: nat)
    ensures n >= k && FreshName(Tried(name, k), k, used) == Tried(name, n) && Tried(name, n) !in used
    ensures forall j | k <= j < n :: Tried(name, j) in used
    decreases |NoShorter(used, |Tried(name, k)|)|
  {
    n := k;
    if Tried(name, k) in used {
      LongerLeavesFewer(used, Tried(name, k), Tried(name, k + 1));
      n := FirstUnused(name, k + 1, used);
    }
  }

  ghost predicate IsFirstUnused(name: string, n: nat, used: set<string>) {
    Tried(name, n) !in used && forall j | 0 <= j < n :: Tried(name, j) in used
  }

  /** A clashing name is followed by 0, then by 01, 012 and so on, until it is unused. */
  lemma FreshNameExactly(name: string, used: set<string>, r: string)
    ensures FreshName(name, 0, used) == r <==> exists n: nat :: IsFirstUnused(name, n, used) && r == Tried(name, n)
  {
    var m := FirstUnused(name, 0, used);
    assert IsFirstUnused(name, m, used);
    if n: nat :| IsFirstUnused(name, n, used) && r == Tried(name, n) {
      assert n == m;
    }
  }

  /** Unnamed arguments are called arg0, arg1 and so on by their positions. */
  lemma UnnamedAreNumbered(camel: string -> string, args: seq<Argument>)
    requires camel("") == "" && forall a | a in args :: a.name == ""
    ensures forall i | 0 <= i < |args| :: Names(camel, args)[i] == "arg" + Decimal(i)
  {
    var bases := BaseNames(camel, args);
    forall i | 0 <= i < |args| ensures bases[i] == "arg" + Decimal(i) {
      assert args[i] in args;
    }
    forall i, j | 0 <= i < j < |args| ensures bases[i] != bases[j] {
      if bases[i] == bases[j] {
        assert bases[i][3..] == Decimal(i) && bases[j][3..] == Decimal(j);
        DecimalInjective(i, j);
      }
    }
    RenamesNothingExactly(camel, args);
  }

  // ---------------------------------------------------------------- key words

  predicate HasDigit(s: string) {
    exists i | 0 <= i < |s| :: IsDigit(s[i])
  }

  lemma KeyWordsHaveNoDigit(s: string)
    requires IsKeyWord(s)
    ensures !HasDigit(s)
  {
    if s in {"import", "interface", "iota", "map", "make", "new", "package", "range", "return", "select", "struct",
             "switch", "type", "var"} {
      LastKeyWords(s);
    } else {
      FirstKeyWords(s);
    }
  }

  lemma FirstKeyWords(s: string)
    requires s in {
      "break", "case", "chan", "const", "continue", "default", "defer", "else", "fallthrough", "for", "func", "go",
      "goto", "if"}
    ensures !HasDigit(s)
  {
    forall i | 0 <= i < |s| ensures !IsDigit(s[i]) {
    }
  }

  lemma LastKeyWords(s: string)
    requires s in {
      "import", "interface", "iota", "map", "make", "new", "package", "range", "return", "select", "struct",
      "switch", "type", "var"}
    ensures !HasDigit(s)
  {
    forall i | 0 <= i < |s| ensures !IsDigit(s[i]) {
    }
  }

  /** A name that was changed ends in a digit, so it is no key word. */
  lemma {:induction false} ChangedHasDigit(name: string, index: nat, used: set<string>)
    requires name in used
    ensures HasDigit(FreshName(name, index, used))
  {
    var next := name + Decimal(index);
    assert IsDigit(next[|name|]);
    var r := FreshName(next, index + 1, used);
    assert next <= r && r[|name|] == next[|name|];
  }

  lemma {:induction false} KeyWordStays(names: seq<string>, used: set<string>, i: nat)
    requires i < |names| && IsKeyWord(Unclash(names, used)[i])
    ensures names[i] == Unclash(names, used)[i]
  {
    var first := FreshName(names[0], 0, used);
    if i == 0 {
      if names[0] in used {
        ChangedHasDigit(names[0], 0, used);
        KeyWordsHaveNoDigit(first);
      }
    } else {
      KeyWordStays(names[1..], used + {first}, i - 1);
    }
  }

  lemma {:induction false} KeyWordAppears(names: seq<string>, used: set<string>, i: nat)
    requires i < |names| && IsKeyWord(names[i]) && names[i] !in used
    ensures names[i] in Unclash(names, used)
  {
    var first := FreshName(names[0], 0, used);
    var r := Unclash(names, used);
    if names[i] == first {
      assert r[0] == first;
    } else {
      KeyWordAppears(names[1..], used + {first}, i - 1);
      assert r == [first] + Unclash(names[1..], used + {first});
    }
  }

  /** The name becomes a key word although it was none. */
  predicate BecomesKeyWord(camel: string -> string, name: string) {
    !IsKeyWord(name) && camel(name) != "" && IsKeyWord(LowerFirst(camel(name)))
  }

  lemma GenericIsNoKeyWord(i: nat)
    ensures !IsKeyWord(Generic(i))
  {
    assert IsDigit(Generic(i)[3]);
    if IsKeyWord(Generic(i)) {
      KeyWordsHaveNoDigit(Generic(i));
    }
  }

  lemma BaseKeyWords(camel: string -> string, args: seq<Argument>, i: nat)
    requires i < |args| && camel(Generic(i)) == "A" + Generic(i)[1..]
    ensures IsKeyWord(BaseNames(camel, args)[i]) <==> BecomesKeyWord(camel, args[i].name)
  {
    GenericIsNoKeyWord(i);
    assert LowerFirst("A" + Generic(i)[1..]) == Generic(i);
  }

  lemma SomeKeyWordExactly(bases: seq<string>)
    ensures (exists i | 0 <= i < |bases| :: IsKeyWord(bases[i]))
       <==> exists i | 0 <= i < |bases| :: IsKeyWord(Unclash(bases, {})[i])
  {
    if i :| 0 <= i < |bases| && IsKeyWord(bases[i]) {
      KeyWordAppears(bases, {}, i);
    }
    if i :| 0 <= i < |bases| && IsKeyWord(Unclash(bases, {})[i]) {
      KeyWordStays(bases, {}, i);
    }
  }

  /** The test for key words looks at the names before their camel-casing. It keeps key words out of the
      result exactly when no other name turns into one by camel-casing and lower-casing its first
      letter. */
  lemma NoKeyWordExactly(camel: string -> string, args: seq<Argument>)
    requires forall i: nat :: camel(Generic(i)) == "A" + Generic(i)[1..]
    ensures (exists i | 0 <= i < |args| :: IsKeyWord(Names(camel, args)[i]))
       <==> exists i | 0 <= i < |args| :: BecomesKeyWord(camel, args[i].name)
  {
    forall i | 0 <= i < |args|
      ensures IsKeyWord(BaseNames(camel, args)[i]) <==> BecomesKeyWord(camel, args[i].name)
    {
      BaseKeyWords(camel, args, i);
    }
    SomeKeyWordExactly(BaseNames(camel, args));
    if i :| 0 <= i < |args| && BecomesKeyWord(camel, args[i].name) {
      assert IsKeyWord(BaseNames(camel, args)[i]);
      var j :| 0 <= j < |args| && IsKeyWord(Unclash(BaseNames(camel, args), {})[j]);
      assert IsKeyWord(Names(camel, args)[j]);
    }
    if j :| 0 <= j < |args| && IsKeyWord(Names(camel, args)[j]) {
      assert IsKeyWord(Unclash(BaseNames(camel, args), {})[j]);
      var i :| 0 <= i < |args| && IsKeyWord(BaseNames(camel, args)[i]);
      assert BecomesKeyWord(camel, args[i].name);
    }
  }

  /** An input that breaks it: the argument name Type, which is no key word, becomes type. */
  lemma KeyWordSlipsThrough(camel: string -> string, t: AbiType)
    requires camel("Type") == "Type"
    ensures Names(camel, [Argument("Type", t, false)]) == ["type"] && IsKeyWord("type")
  {
    var args := [Argument("Type", t, false)];
    assert LowerFirst("Type") == "type";
    assert BaseNames(camel, args) == ["type"];
    assert Unclash(["type"], {}) == ["type"] + Unclash([], {"type"});
  }
}
