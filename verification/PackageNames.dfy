/** Package names and output directories of generated bindings (generate-bindings.go). */
module PackageNames {
  import opened Text

  predicate IsUpper(c: char) {
    'A' <= c <= 'Z'
  }

  predicate IsLower(c: char) {
    'a' <= c <= 'z'
  }

  /** What the i-th character of a contract name contributes. */
  function Piece(name: string, i: nat): string
    requires i < |name|
  {
    if !IsUpper(name[i]) then [name[i]]
    else
      var prevIsUpper := i > 0 && IsUpper(name[i - 1]);
      var nextIsLower := i + 1 < |name| && IsLower(name[i + 1]);
      (if i > 0 && (!prevIsUpper || (nextIsLower && i > 1)) then "_" else "") + [LowerChar(name[i])]
  }

  function PackageFrom(name: string, i: nat): string
    requires i <= |name|
    decreases |name| - i
  {
    if i == |name| then "" else Piece(name, i) + PackageFrom(name, i + 1)
  }

  function PackageName(name: string): string {
    PackageFrom(name, 0)
  }

  lemma NextPiece(done: string, name: string, i: nat, whole: string)
    requires i < |name| && done + PackageFrom(name, i) == whole
    ensures (done + Piece(name, i)) + PackageFrom(name, i + 1) == whole
  {
  }

  method ContractNameToPackage(contractName: string) returns (result: string)
    ensures result == PackageName(contractName)
  {
    result := [];
    for i := 0 to |contractName|
      invariant result + PackageFrom(contractName, i) == PackageName(contractName)
    {
      var r := contractName[i];
      ghost var extended := result + Piece(contractName, i);
      NextPiece(result, contractName, i, PackageName(contractName));
      if IsUpper(r) {
        if i > 0 {
          var prevIsUpper := IsUpper(contractName[i - 1]);
          var nextIsLower := i + 1 < |contractName| && IsLower(contractName[i + 1]);
          if !prevIsUpper || (nextIsLower && i > 1) {
            result := result + ['_'];
          }
        }
        result := result + [LowerChar(r)];
      } else {
        result := result + [r];
      }
      assert result == extended;
    }
  }

  predicate NoUpper(s: string) {
    forall i | 0 <= i < |s| :: !IsUpper(s[i])
  }

  lemma {:induction false} PackageHasNoUpper(name: string, i: nat)
    requires i <= |name|
    ensures NoUpper(PackageFrom(name, i))
    decreases |name| - i
  {
    if i < |name| {
      PackageHasNoUpper(name, i + 1);
    }
  }

  lemma {:induction false} NoUpperIsKept(name: string, i: nat)
    requires i <= |name| && NoUpper(name)
    ensures PackageFrom(name, i) == name[i..]
    decreases |name| - i
  {
    if i < |name| {
      NoUpperIsKept(name, i + 1);
    }
  }

  function Erase(s: string): string {
    if s == [] then [] else (if s[0] == '_' then [] else [s[0]]) + Erase(s[1..])
  }

  lemma {:induction false} EraseConcat(a: string, b: string)
    ensures Erase(a + b) == Erase(a) + Erase(b)
  {
    if a == [] {
      assert a + b == b;
    } else {
      assert (a + b)[1..] == a[1..] + b;
      EraseConcat(a[1..], b);
    }
  }

  lemma {:induction false} ErasedPackage(name: string, i: nat)
    requires i <= |name|
    ensures Erase(PackageFrom(name, i)) == Erase(Lower(name)[i..])
    decreases |name| - i
  {
    if i < |name| {
      ErasedPackage(name, i + 1);
      EraseConcat(Piece(name, i), PackageFrom(name, i + 1));
      var low := Lower(name)[i..];
      assert low[0] == LowerChar(name[i]) && low[1..] == Lower(name)[i + 1..];
      assert Erase([LowerChar(name[i])]) == if low[0] == '_' then [] else [low[0]];
      EraseConcat("_", [LowerChar(name[i])]);
      assert Erase("_") == [];
    }
  }

  /** A package name has no ASCII capitals, is its own package name, and differs from the
      lower-cased contract name in underscores only. */
  lemma PackageNameFacts(name: string)
    ensures NoUpper(PackageName(name))
    ensures PackageName(PackageName(name)) == PackageName(name)
    ensures Erase(PackageName(name)) == Erase(Lower(name))
  {
    PackageHasNoUpper(name, 0);
    NoUpperIsKept(PackageName(name), 0);
    assert PackageName(name)[0..] == PackageName(name);
    ErasedPackage(name, 0);
    assert Lower(name)[0..] == Lower(name);
  }

  // ---------------------------------------------------- where underscores stand

  predicate EndsLow(a: string) {
    a == "" || !IsUpper(a[|a| - 1])
  }

  predicate StartsLow(t: string) {
    t == "" || !IsUpper(t[0])
  }

  predicate AllUpper(u: string) {
    forall i | 0 <= i < |u| :: IsUpper(u[i])
  }

  function Pieces(name: string): (ps: seq<string>)
    ensures |ps| == |name|
  {
    seq(|name|, i requires 0 <= i < |name| => Piece(name, i))
  }

  function Flatten(ps: seq<string>): string {
    if ps == [] then "" else ps[0] + Flatten(ps[1..])
  }

  lemma {:induction false} FlattenConcat(ps: seq<string>, qs: seq<string>)
    ensures Flatten(ps + qs) == Flatten(ps) + Flatten(qs)
  {
    if ps == [] {
      assert ps + qs == qs;
    } else {
      FlattenConcat(ps[1..], qs);
      assert (ps + qs)[0] == ps[0] && (ps + qs)[1..] == ps[1..] + qs;
      assert ps[0] + (Flatten(ps[1..]) + Flatten(qs)) == (ps[0] + Flatten(ps[1..])) + Flatten(qs);
    }
  }

  lemma {:induction false} PackageIsFlat(name: string, i: nat)
    requires i <= |name|
    ensures PackageFrom(name, i) == Flatten(Pieces(name)[i..])
    decreases |name| - i
  {
    if i < |name| {
      PackageIsFlat(name, i + 1);
      assert Pieces(name)[i..][0] == Piece(name, i) && Pieces(name)[i..][1..] == Pieces(name)[i + 1..];
    }
  }

  lemma PackageNameIsFlat(name: string)
    ensures PackageName(name) == Flatten(Pieces(name))
  {
    PackageIsFlat(name, 0);
    assert Pieces(name)[0..] == Pieces(name);
  }

  /** A run u of capitals after a and before t: its last capital starts a new word when a lower-case
      letter follows, unless it is among the first two characters of the whole name. */
  predicate StartsWord(a: string, u: string, t: string) {
    |u| >= 2 && |a| + |u| > 2 && t != "" && IsLower(t[0])
  }

  function RunText(a: string, u: string, t: string): string {
    if StartsWord(a, u, t) then Lower(u[..|u| - 1]) + "_" + Lower(u[|u| - 1..]) else Lower(u)
  }

  function Separator(a: string): string {
    if a == "" then "" else "_"
  }

  function Chars(s: string): (ps: seq<string>)
    ensures |ps| == |s|
  {
    seq(|s|, i requires 0 <= i < |s| => [LowerChar(s[i])])
  }

  lemma {:induction false} FlattenChars(s: string)
    ensures Flatten(Chars(s)) == Lower(s)
  {
    if s != "" {
      FlattenChars(s[1..]);
      assert Chars(s)[1..] == Chars(s[1..]);
      assert Lower(s) == [LowerChar(s[0])] + Lower(s[1..]);
    }
  }

  /** What the j-th capital of a run contributes. */
  function RunPiece(a: string, u: string, t: string, j: nat): string
    requires j < |u|
  {
    if j == 0 then Separator(a) + [LowerChar(u[j])]
    else if j == |u| - 1 && StartsWord(a, u, t) then "_" + [LowerChar(u[j])]
    else [LowerChar(u[j])]
  }

  function RunPieces(a: string, u: string, t: string): (ps: seq<string>)
    ensures |ps| == |u|
  {
    seq(|u|, j requires 0 <= j < |u| => RunPiece(a, u, t, j))
  }

  /** The name is a, then u, then t. */
  ghost predicate Joins(name: string, a: string, u: string, t: string) {
    && |name| == |a| + |u| + |t|
    && (forall i | 0 <= i < |a| :: name[i] == a[i])
    && (forall i | 0 <= i < |u| :: name[|a| + i] == u[i])
    && forall i | 0 <= i < |t| :: name[|a| + |u| + i] == t[i]
  }

  lemma PieceBefore(name: string, a: string, u: string, t: string, i: nat)
    requires Joins(name, a, u, t) && EndsLow(a) && i < |a|
    ensures Piece(name, i) == Piece(a, i)
  {
  }

  lemma PieceInRun(name: string, a: string, u: string, t: string, j: nat)
    requires Joins(name, a, u, t) && EndsLow(a) && AllUpper(u) && StartsLow(t) && j < |u|
    ensures Piece(name, |a| + j) == RunPiece(a, u, t, j)
  {
    assert name[|a| + j] == u[j];
    if j == 0 {
      assert a != "" ==> name[|a| - 1] == a[|a| - 1];
    } else {
      assert name[|a| + (j - 1)] == u[j - 1];
      assert j + 1 < |u| ==> name[|a| + (j + 1)] == u[j + 1];
      assert t != "" ==> name[|a| + |u| + 0] == t[0];
    }
  }

  lemma PieceAfter(name: string, a: string, u: string, t: string, k: nat)
    requires Joins(name, a, u, t) && StartsLow(t) && k < |t|
    ensures Piece(name, |a| + |u| + k) == Piece(t, k)
  {
    assert name[|a| + |u| + k] == t[k];
    assert k > 0 ==> name[|a| + |u| + (k - 1)] == t[k - 1];
    assert k + 1 < |t| ==> name[|a| + |u| + (k + 1)] == t[k + 1];
  }

  lemma ThreeParts(ps: seq<string>, x: seq<string>, y: seq<string>, z: seq<string>)
    requires |ps| == |x| + |y| + |z|
    requires forall i | 0 <= i < |x| :: ps[i] == x[i]
    requires forall i | 0 <= i < |y| :: ps[|x| + i] == y[i]
    requires forall i | 0 <= i < |z| :: ps[|x| + |y| + i] == z[i]
    ensures ps == x + (y + z)
  {
    assert ps[..|x|] == x && ps[|x|..|x| + |y|] == y && ps[|x| + |y|..] == z;
    assert ps == ps[..|x|] + (ps[|x|..|x| + |y|] + ps[|x| + |y|..]);
  }

  lemma PiecesBefore(name: string, a: string, u: string, t: string)
    requires Joins(name, a, u, t) && EndsLow(a)
    ensures forall i | 0 <= i < |a| :: Pieces(name)[i] == Pieces(a)[i]
  {
    forall i | 0 <= i < |a| ensures Pieces(name)[i] == Pieces(a)[i] {
      PieceBefore(name, a, u, t, i);
    }
  }

  lemma PieceAt(name: string, a: string, u: string, t: string, j: nat)
    requires Joins(name, a, u, t) && EndsLow(a) && AllUpper(u) && StartsLow(t) && j < |u|
    ensures Pieces(name)[|a| + j] == RunPieces(a, u, t)[j]
  {
    PieceInRun(name, a, u, t, j);
  }

  lemma PiecesInRun(name: string, a: string, u: string, t: string)
    requires Joins(name, a, u, t) && EndsLow(a) && AllUpper(u) && StartsLow(t)
    ensures forall j | 0 <= j < |u| :: Pieces(name)[|a| + j] == RunPieces(a, u, t)[j]
  {
    forall j | 0 <= j < |u| ensures Pieces(name)[|a| + j] == RunPieces(a, u, t)[j] {
      PieceAt(name, a, u, t, j);
    }
  }

  lemma PiecesAfter(name: string, a: string, u: string, t: string)
    requires Joins(name, a, u, t) && StartsLow(t)
    ensures forall k | 0 <= k < |t| :: Pieces(name)[|a| + |u| + k] == Pieces(t)[k]
  {
    forall k | 0 <= k < |t| ensures Pieces(name)[|a| + |u| + k] == Pieces(t)[k] {
      PieceAfter(name, a, u, t, k);
    }
  }

  lemma PiecesOfRun(name: string, a: string, u: string, t: string)
    requires Joins(name, a, u, t) && EndsLow(a) && u != "" && AllUpper(u) && StartsLow(t)
    ensures Pieces(name) == Pieces(a) + (RunPieces(a, u, t) + Pieces(t))
  {
    PiecesBefore(name, a, u, t);
    PiecesInRun(name, a, u, t);
    PiecesAfter(name, a, u, t);
    ThreeParts(Pieces(name), Pieces(a), RunPieces(a, u, t), Pieces(t));
  }

  lemma FlattenPrepend(p: string, ps: seq<string>)
    ensures Flatten([p] + ps) == p + Flatten(ps)
  {
    assert ([p] + ps)[1..] == ps;
  }

  lemma FlattenAppend(ps: seq<string>, p: string)
    ensures Flatten(ps + [p]) == Flatten(ps) + p
  {
    FlattenConcat(ps, [p]);
    assert [p][1..] == [] && Flatten([]) == "" && p + "" == p;
  }

  lemma Regroup(x: string, y: string, z: string)
    ensures (x + y) + z == x + (y + z)
  {
  }

  lemma FlattenPlainRun(sep: string, u: string)
    requires u != ""
    ensures Flatten([sep + [LowerChar(u[0])]] + Chars(u[1..])) == sep + Lower(u)
  {
    FlattenPrepend(sep + [LowerChar(u[0])], Chars(u[1..]));
    FlattenChars(u[1..]);
    assert Lower(u) == [LowerChar(u[0])] + Lower(u[1..]);
    Regroup(sep, [LowerChar(u[0])], Lower(u[1..]));
  }

  lemma MarkedRun(a: string, u: string, t: string)
    requires StartsWord(a, u, t)
    ensures var first := [Separator(a) + [LowerChar(u[0])]];
            RunPieces(a, u, t) == (first + Chars(u[1..|u| - 1])) + ["_" + [LowerChar(u[|u| - 1])]]
  {
    var n, ps := |u|, RunPieces(a, u, t);
    var middle, chars := ps[1..n - 1], Chars(u[1..n - 1]);
    forall j | 0 <= j < n - 2 ensures middle[j] == chars[j] {
      assert middle[j] == ps[j + 1] == RunPiece(a, u, t, j + 1) == [LowerChar(u[j + 1])];
    }
    assert middle == chars;
    assert ps == ([ps[0]] + ps[1..n - 1]) + [ps[n - 1]];
  }

  lemma PlainRun(a: string, u: string, t: string)
    requires u != "" && !StartsWord(a, u, t)
    ensures RunPieces(a, u, t) == [Separator(a) + [LowerChar(u[0])]] + Chars(u[1..])
  {
    var ps := RunPieces(a, u, t);
    assert ps[1..] == Chars(u[1..]);
    assert ps == [ps[0]] + ps[1..];
  }

  lemma FlattenRun(a: string, u: string, t: string)
    requires u != ""
    ensures Flatten(RunPieces(a, u, t)) == Separator(a) + RunText(a, u, t)
  {
    if StartsWord(a, u, t) {
      FlattenMarkedRun(a, u, t);
    } else {
      PlainRun(a, u, t);
      FlattenPlainRun(Separator(a), u);
    }
  }

  lemma FlattenMarkedRun(a: string, u: string, t: string)
    requires StartsWord(a, u, t)
    ensures Flatten(RunPieces(a, u, t)) == Separator(a) + ((Lower(u[..|u| - 1]) + "_") + Lower(u[|u| - 1..]))
  {
    var v, last := u[..|u| - 1], u[|u| - 1];
    assert v[0] == u[0] && v[1..] == u[1..|u| - 1];
    assert Lower(u[|u| - 1..]) == [LowerChar(last)];
    MarkedRun(a, u, t);
    FlattenPlainRun(Separator(a), v);
    FlattenAppend([Separator(a) + [LowerChar(v[0])]] + Chars(v[1..]), "_" + [LowerChar(last)]);
    Regroup(Separator(a), Lower(v), "_" + [LowerChar(last)]);
    Regroup(Lower(v), "_", [LowerChar(last)]);
  }

  /** Package names word by word: a maximal run of capitals is lower-cased, with an underscore before
      it unless it starts the name, and none inside it but before a last capital that starts a word.
      What stands before and after the run is spelled as it would be alone. */
  lemma RunOfCapitals(a: string, u: string, t: string)
    requires EndsLow(a) && u != "" && AllUpper(u) && StartsLow(t)
    ensures PackageName(a + (u + t)) == PackageName(a) + ((Separator(a) + RunText(a, u, t)) + PackageName(t))
  {
    PackageNameIsFlat(a + (u + t));
    PackageNameIsFlat(a);
    PackageNameIsFlat(t);
    PiecesOfRun(a + (u + t), a, u, t);
    FlattenConcat(Pieces(a), RunPieces(a, u, t) + Pieces(t));
    FlattenConcat(RunPieces(a, u, t), Pieces(t));
    FlattenRun(a, u, t);
  }

  /** Camel-cased words are joined by underscores. */
  lemma WordsAreJoined(a: string, b: string)
    requires a != "" && EndsLow(a)
    requires b != "" && IsUpper(b[0]) && StartsLow(b[1..])
    ensures PackageName(a + b) == PackageName(a) + "_" + PackageName(b)
  {
    var u, t := b[..1], b[1..];
    assert b == u + t && "" + b == b;
    RunOfCapitals(a, u, t);
    RunOfCapitals("", u, t);
    assert PackageName("") == "";
    OneUnderscore(PackageName(a), Lower(u), PackageName(t));
  }

  lemma OneUnderscore(x: string, u: string, t: string)
    ensures x + (("_" + u) + t) == x + "_" + ("" + (("" + u) + t))
  {
    assert "" + u == u;
  }

  // -------------------------------------------------------- the collision scan

  ghost predicate DistinctPackages(names: seq<string>) {
    forall i, j | 0 <= i < j < |names| :: PackageName(names[i]) != PackageName(names[j])
  }

  /** The first loop over the ABI files; names are the file names without their extension. */
  method ScanForCollisions(names: seq<string>) returns (r: Result<(), string>)
    ensures r.Ok? <==> DistinctPackages(names)
    ensures r.Err? ==> exists i, j | 0 <= i < j < |names| :: PackageName(names[i]) == PackageName(names[j]) == r.error
  {
    var packageNames: set<string> := {};
    for j := 0 to |names|
      invariant DistinctPackages(names[..j])
      invariant forall p :: p in packageNames <==> exists i | 0 <= i < j :: PackageName(names[i]) == p
    {
      var packageName := ContractNameToPackage(names[j]);
      if packageName in packageNames {
        return Err(packageName);
      }
      packageNames := packageNames + {packageName};
    }
    assert names[..|names|] == names;
    r := Ok(());
  }

  /** filepath.Join of a clean directory with a single path element. */
  function Join(base: seq<string>, element: string): seq<string>
    requires base != []
  {
    if element == "" || element == "." then base
    else if element == ".." then base[..|base| - 1]
    else base + [element]
  }

  function OutputDir(base: seq<string>, contractName: string): seq<string>
    requires base != []
  {
    Join(base, PackageName(contractName))
  }

  lemma {:induction false} PackageIsNoShorter(name: string, i: nat)
    requires i <= |name|
    ensures |PackageFrom(name, i)| >= |name| - i
    decreases |name| - i
  {
    if i < |name| {
      PackageIsNoShorter(name, i + 1);
    }
  }

  /** Only the names "" and "." have those package names. */
  lemma DotNames(name: string)
    ensures PackageName(name) == "" <==> name == ""
    ensures PackageName(name) == "." <==> name == "."
    ensures PackageName(name) == ".." <==> name == ".."
  {
    PackageIsNoShorter(name, 0);
    DotDot(name);
    if |name| == 1 {
      assert Piece(name, 0) == [LowerChar(name[0])];
      assert PackageFrom(name, 1) == "";
      assert PackageName(name) == [LowerChar(name[0])];
      assert name == [name[0]];
      assert LowerChar(name[0]) == '.' <==> name[0] == '.';
    }
  }

  lemma DotDot(name: string)
    ensures PackageName(name) == ".." <==> name == ".."
  {
    PackageIsNoShorter(name, 0);
    if name == ".." {
      NoUpperIsKept(name, 0);
    } else if PackageName(name) == ".." {
      ErasedPackage(name, 0);
      assert Lower(name)[0..] == Lower(name);
      NotDotDot(name);
    }
  }

  lemma NotDotDot(name: string)
    requires name != "" && |name| <= 2 && Erase(Lower(name)) == Erase("..")
    ensures name == ".."
  {
    var low := Lower(name);
    assert Erase("..") == ".." by { assert ".."[1..] == "." && "."[1..] == ""; }
    assert Erase(low[1..]) == if |name| == 1 || low[1] == '_' then "" else [low[1]] by {
      assert |name| == 2 ==> low[1..][1..] == "";
    }
    assert low == "..";
    assert forall i | 0 <= i < |name| :: LowerChar(name[i]) == low[i] == '.';
  }

  /** The output directory of a contract is named after its package, inside the output path; only
      the names "", "." and ".." leave it or stay on it. */
  lemma OutputDirExactly(base: seq<string>, name: string)
    requires base != []
    ensures OutputDir(base, name) == if name == "" || name == "." then base
                                     else if name == ".." then base[..|base| - 1]
                                     else base + [PackageName(name)]
  {
    DotNames(name);
  }

  /** When the scan passes, the output directories are pairwise distinct unless both ".abi" and
      "..abi" are among the files: their packages differ, but both directories are the output path
      itself. */
  lemma OutputDirsDistinctExactly(base: seq<string>, names: seq<string>)
    requires base != [] && DistinctPackages(names)
    ensures (forall i, j | 0 <= i < j < |names| :: OutputDir(base, names[i]) != OutputDir(base, names[j]))
       <==> !("" in names && "." in names)
  {
    forall i | 0 <= i < |names|
      ensures PackageName(names[i]) == "" <==> names[i] == ""
      ensures PackageName(names[i]) == "." <==> names[i] == "."
    {
      DotNames(names[i]);
    }
    if "" in names && "." in names {
      var i :| 0 <= i < |names| && names[i] == "";
      var j :| 0 <= j < |names| && names[j] == ".";
      assert OutputDir(base, names[i]) == OutputDir(base, names[j]) == base;
      assert i < j || j < i;
    } else {
      forall i, j | 0 <= i < j < |names| ensures OutputDir(base, names[i]) != OutputDir(base, names[j]) {
        JoinDiffers(base, PackageName(names[i]), PackageName(names[j]));
      }
    }
  }

  lemma JoinDiffers(base: seq<string>, a: string, b: string)
    requires base != [] && a != b
    requires !(a in {"", "."} && b in {"", "."})
    ensures Join(base, a) != Join(base, b)
  {
    assert (base + [a])[|base|] == a && (base + [b])[|base|] == b;
  }
}
