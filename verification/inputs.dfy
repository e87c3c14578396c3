/**
 * The `// INPUTS(type): a, b, ...` directives of an HLSL file: each symbol
 * they name is either predefined on the compiler's command line as
 * `-D symbol=zero value`, or, for a type with no known zero value, declared
 * in a prefix of `type symbol;` lines put before the text. The parser's line
 * offset then takes those prefix lines back out.
 */
module Inputs {
  import opened Wrappers
  import opened Text
  import OutputParser

  /** One directive as matched: its optional type name and its
      comma-separated list of symbols. */
  datatype Directive = Directive(typeName: Option<string>, list: string)

  /** A symbol and the type it was introduced with. */
  datatype Symbol = Symbol(name: string, typeName: string)

  /** A directive without a type is about `float`s. */
  function TypeNameOf(d: Directive): (t: string)
    ensures d.typeName.Some? ==> t == d.typeName.value
    ensures d.typeName.None? ==> t == "float"
  {
    match d.typeName
    case Some(t) => t
    case None => "float"
  }

  const Constructors: map<string, string> := map[
    "float" := "0.0",
    "float2" := "float2(0, 0)",
    "float3" := "float3(0, 0, 0)",
    "float4" := "float4(0, 0, 0, 0)",
    "int" := "0",
    "int2" := "int2(0, 0)",
    "int3" := "int3(0, 0, 0)",
    "int4" := "int4(0, 0, 0, 0)"
  ]

  /** `n` zeros separated by `, `. */
  function Zeros(n: nat): string
    requires n >= 1
  {
    if n == 1 then "0" else Zeros(n - 1) + ", 0"
  }

  /** The zero value of HLSL's `float` and `int` scalars and of their 2-, 3-
      and 4-component vectors; none for any other type. */
  function ZeroValue(typeName: string): Option<string> {
    if typeName == "float" then Some("0.0")
    else if typeName == "int" then Some("0")
    else if |typeName| > 0 && (typeName[..|typeName| - 1] == "float" || typeName[..|typeName| - 1] == "int") &&
            '2' <= typeName[|typeName| - 1] <= '4'
    then Some(typeName + "(" + Zeros(typeName[|typeName| - 1] as int - '0' as int) + ")")
    else None
  }

  /** `makeTypeContructor`: the table's entry for the type, or none. */
  function MakeTypeConstructor(typeName: string): (r: Option<string>)
    ensures r.Some? <==> typeName in Constructors
    ensures r.Some? ==> r.value == Constructors[typeName]
  {
    if typeName in Constructors then Some(Constructors[typeName]) else None
  }

  /** The constructor table gives exactly the zero values of the eight
      scalar and vector types, and nothing for any other type. */
  lemma TableHoldsZeroValues(typeName: string)
    ensures MakeTypeConstructor(typeName) == ZeroValue(typeName)
  {
    if typeName in Constructors {
      KnownTypeZero(typeName);
    } else {
      UnknownTypeHasNoZero(typeName);
    }
  }

  /** The property names every JavaScript object literal answers through its
      prototype; all of them are words a directive's type may be. */
  const InheritedNames: set<string> := {
    "constructor", "hasOwnProperty", "isPrototypeOf", "propertyIsEnumerable",
    "toLocaleString", "toString", "valueOf", "__proto__",
    "__defineGetter__", "__defineSetter__", "__lookupGetter__", "__lookupSetter__"
  }

  /** What the table lookup can answer when its membership test also sees
      inherited properties: an entry of its own, an inherited property (a
      function or the prototype object, never `null`), or nothing. */
  datatype Lookup = Own(value: string) | Inherited(name: string) | Absent

  /** `makeTypeContructor` as written, where `typeName in Constructors` also
      holds for the inherited names. */
  function MakeTypeConstructorAsWritten(typeName: string): (r: Lookup)
    ensures r.Absent? <==> typeName !in Constructors && typeName !in InheritedNames
    ensures r.Own? <==> typeName in Constructors
    ensures r.Own? ==> MakeTypeConstructor(typeName) == Some(r.value)
  {
    if typeName in Constructors then Own(Constructors[typeName])
    else if typeName in InheritedNames then Inherited(typeName)
    else Absent
  }

  /** A directive typed `constructor` has no zero value, yet the lookup as
      written does not answer `null`, so its symbols are predefined with the
      text of a function instead of being declared. */
  lemma InheritedNameTakenAsKnown()
    ensures ZeroValue("constructor") == None
    ensures MakeTypeConstructorAsWritten("constructor") == Inherited("constructor")
  {
    UnknownTypeHasNoZero("constructor");
  }

  /** The lookup as written and the own-entry lookup disagree about whether
      a type has a constructor exactly on the inherited names. */
  lemma AsWrittenDiffersOnInherited(typeName: string)
    ensures MakeTypeConstructorAsWritten(typeName).Absent? != MakeTypeConstructor(typeName).None? <==>
      typeName in InheritedNames
  {
    assert forall n :: n in InheritedNames ==> n !in Constructors;
  }

  lemma UnknownTypeHasNoZero(typeName: string)
    requires typeName !in Constructors
    ensures ZeroValue(typeName) == None
  {
    if |typeName| > 0 {
      var base, digit := typeName[..|typeName| - 1], typeName[|typeName| - 1];
      assert typeName == base + [digit];
      if (base == "float" || base == "int") && '2' <= digit <= '4' {
        VectorIsKnown(base, digit);
        assert false;
      }
    }
  }

  lemma VectorIsKnown(base: string, digit: char)
    requires base == "float" || base == "int"
    requires '2' <= digit <= '4'
    ensures base + [digit] in Constructors
  {
    assert digit == '2' || digit == '3' || digit == '4';
    if base == "float" {
      assert base + [digit] == "float2" || base + [digit] == "float3" || base + [digit] == "float4";
    } else {
      assert base + [digit] == "int2" || base + [digit] == "int3" || base + [digit] == "int4";
    }
  }

  /** The zero value of a 2-, 3- or 4-component vector type. */
  lemma VectorZero(base: string, digit: char)
    requires base == "float" || base == "int"
    requires '2' <= digit <= '4'
    ensures ZeroValue(base + [digit]) == Some(base + [digit] + "(" + Zeros(digit as int - '0' as int) + ")")
  {
    var t := base + [digit];
    assert t[..|t| - 1] == base;
  }

  lemma KnownTypeZero(typeName: string)
    requires typeName in Constructors
    ensures ZeroValue(typeName) == Some(Constructors[typeName])
  {
    if typeName != "float" && typeName != "int" {
      var base, digit := typeName[..|typeName| - 1], typeName[|typeName| - 1];
      assert (base == "float" || base == "int") && '2' <= digit <= '4' && typeName == base + [digit];
      VectorEntry(base, digit);
    }
  }

  /** The table's entry for a 2-, 3- or 4-component vector is the vector of
      that many zeros. */
  lemma VectorEntry(base: string, digit: char)
    requires base == "float" || base == "int"
    requires '2' <= digit <= '4'
    ensures base + [digit] in Constructors
    ensures ZeroValue(base + [digit]) == Some(Constructors[base + [digit]])
  {
    var t := base + [digit];
    var zeros := Zeros(digit as int - '0' as int);
    assert ZeroValue(t) == Some(t + "(" + zeros + ")") by {
      VectorZero(base, digit);
    }
    assert t in Constructors && Constructors[t] == t + "(" + zeros + ")" by {
      ZerosValues();
      VectorEntries();
      if digit == '2' {
        assert zeros == "0, 0";
        if base == "float" {
          assert t == "float2";
        } else {
          assert t == "int2";
        }
      } else if digit == '3' {
        assert zeros == "0, 0, 0";
        if base == "float" {
          assert t == "float3";
        } else {
          assert t == "int3";
        }
      } else {
        assert zeros == "0, 0, 0, 0";
        if base == "float" {
          assert t == "float4";
        } else {
          assert t == "int4";
        }
      }
    }
  }

  /** The six vector entries of the table. */
  lemma VectorEntries()
    ensures "float2" in Constructors && Constructors["float2"] == "float2" + "(" + "0, 0" + ")"
    ensures "float3" in Constructors && Constructors["float3"] == "float3" + "(" + "0, 0, 0" + ")"
    ensures "float4" in Constructors && Constructors["float4"] == "float4" + "(" + "0, 0, 0, 0" + ")"
    ensures "int2" in Constructors && Constructors["int2"] == "int2" + "(" + "0, 0" + ")"
    ensures "int3" in Constructors && Constructors["int3"] == "int3" + "(" + "0, 0, 0" + ")"
    ensures "int4" in Constructors && Constructors["int4"] == "int4" + "(" + "0, 0, 0, 0" + ")"
  {
  }

  lemma ZerosValues()
    ensures Zeros(2) == "0, 0" && Zeros(3) == "0, 0, 0" && Zeros(4) == "0, 0, 0, 0"
  {
    assert Zeros(1) == "0";
    assert Zeros(2) == "0" + ", 0";
    assert Zeros(3) == "0, 0" + ", 0";
    assert Zeros(4) == "0, 0, 0" + ", 0";
  }

  // ---- Symbols ----

  /** The listed symbols, trimmed, each with the given type. */
  function Listed(names: seq<string>, typeName: string): (symbols: seq<Symbol>)
    ensures |symbols| == |names|
    ensures forall k :: 0 <= k < |names| ==> symbols[k] == Symbol(Trim(names[k]), typeName)
    decreases |names|
  {
    if names == [] then []
    else Listed(names[..|names| - 1], typeName) + [Symbol(Trim(names[|names| - 1]), typeName)]
  }

  lemma ListedNext(before: seq<Symbol>, names: seq<string>, j: nat, typeName: string)
    requires j < |names|
    ensures before + Listed(names[..j + 1], typeName) == (before + Listed(names[..j], typeName)) + [Symbol(Trim(names[j]), typeName)]
  {
    assert names[..j + 1][..j] == names[..j];
    Assoc(before, Listed(names[..j], typeName), [Symbol(Trim(names[j]), typeName)]);
  }

  /** The symbols of one directive, with the directive's type. Splitting at
      the commas and trimming each piece gives what splitting at commas with
      the white space around them gives. */
  function SymbolsOf(d: Directive): seq<Symbol> {
    Listed(Split(d.list, ','), TypeNameOf(d))
  }

  /** A directive names one symbol per comma-separated piece of its list,
      in order: the piece without its surrounding white space, so a name
      holds no comma and neither starts nor ends with white space, and
      every symbol has the directive's type. */
  lemma SymbolsOfPieces(d: Directive)
    ensures |SymbolsOf(d)| == |Split(d.list, ',')|
    ensures forall k :: 0 <= k < |SymbolsOf(d)| ==>
      SymbolsOf(d)[k] == Symbol(Trim(Split(d.list, ',')[k]), TypeNameOf(d))
    ensures forall k :: 0 <= k < |SymbolsOf(d)| ==>
      var name := SymbolsOf(d)[k].name;
      ',' !in name && (name == [] || (!IsSpace(name[0]) && !IsSpace(name[|name| - 1])))
  {
    var pieces := Split(d.list, ',');
    forall k | 0 <= k < |SymbolsOf(d)|
      ensures var name := SymbolsOf(d)[k].name;
        ',' !in name && (name == [] || (!IsSpace(name[0]) && !IsSpace(name[|name| - 1])))
    {
      TrimAddsNothing(pieces[k], ',');
      TrimKeepsCore(pieces[k]);
    }
  }

  /** The symbols of all directives, in order. */
  function AllSymbols(directives: seq<Directive>): seq<Symbol>
    decreases |directives|
  {
    if directives == [] then []
    else AllSymbols(directives[..|directives| - 1]) + SymbolsOf(directives[|directives| - 1])
  }

  function Names(symbols: seq<Symbol>): (names: seq<string>)
    ensures |names| == |symbols| && forall k :: 0 <= k < |symbols| ==> names[k] == symbols[k].name
    decreases |symbols|
  {
    if symbols == [] then [] else Names(symbols[..|symbols| - 1]) + [symbols[|symbols| - 1].name]
  }

  lemma NamesSnoc(symbols: seq<Symbol>, s: Symbol)
    ensures Names(symbols + [s]) == Names(symbols) + [s.name]
  {
    assert (symbols + [s])[..|symbols|] == symbols;
  }

  /** Each name with the first symbol that has it, in order of first appearance. */
  function Distinct(symbols: seq<Symbol>): seq<Symbol>
    decreases |symbols|
  {
    if symbols == [] then []
    else
      var seen := Distinct(symbols[..|symbols| - 1]);
      var s := symbols[|symbols| - 1];
      if s.name in Names(seen) then seen else seen + [s]
  }

  lemma DistinctSnoc(symbols: seq<Symbol>, s: Symbol)
    ensures Distinct(symbols + [s]) ==
      if s.name in Names(Distinct(symbols)) then Distinct(symbols) else Distinct(symbols) + [s]
  {
    assert (symbols + [s])[..|symbols|] == symbols;
  }

  /** The first symbol of `symbols` with the given name. */
  function FirstNamed(symbols: seq<Symbol>, name: string): (s: Symbol)
    requires name in Names(symbols)
    ensures s in symbols && s.name == name
  {
    if symbols[0].name == name then symbols[0]
    else
      assert Names(symbols[1..]) == Names(symbols)[1..];
      FirstNamed(symbols[1..], name)
  }

  /** `FirstNamed` is the first symbol with the name: none before it has it. */
  lemma {:induction false} FirstNamedIsFirst(symbols: seq<Symbol>, name: string)
    requires name in Names(symbols)
    ensures exists j ::
      0 <= j < |symbols| && symbols[j] == FirstNamed(symbols, name) && forall i :: 0 <= i < j ==> symbols[i].name != name
    decreases |symbols|
  {
    if symbols[0].name != name {
      var rest := symbols[1..];
      assert Names(rest) == Names(symbols)[1..];
      FirstNamedIsFirst(rest, name);
      var j :| 0 <= j < |rest| && rest[j] == FirstNamed(rest, name) && forall i :: 0 <= i < j ==> rest[i].name != name;
      forall i | 0 <= i < j + 1
        ensures symbols[i].name != name
      {
        if 0 < i {
          assert symbols[i] == rest[i - 1];
        }
      }
      assert symbols[j + 1] == FirstNamed(symbols, name);
    } else {
      assert symbols[0] == FirstNamed(symbols, name);
    }
  }

  lemma {:induction false} FirstNamedAppend(symbols: seq<Symbol>, s: Symbol, name: string)
    requires name in Names(symbols)
    ensures name in Names(symbols + [s]) && FirstNamed(symbols + [s], name) == FirstNamed(symbols, name)
    decreases |symbols|
  {
    NamesSnoc(symbols, s);
    if symbols[0].name != name {
      assert (symbols + [s])[1..] == symbols[1..] + [s];
      assert Names(symbols[1..]) == Names(symbols)[1..];
      FirstNamedAppend(symbols[1..], s, name);
    }
  }

  lemma {:induction false} FirstNamedLast(symbols: seq<Symbol>, s: Symbol)
    requires s.name !in Names(symbols)
    ensures s.name in Names(symbols + [s]) && FirstNamed(symbols + [s], s.name) == s
    decreases |symbols|
  {
    NamesSnoc(symbols, s);
    if symbols != [] {
      assert (symbols + [s])[1..] == symbols[1..] + [s];
      assert Names(symbols[1..]) == Names(symbols)[1..];
      FirstNamedLast(symbols[1..], s);
    }
  }

  /** No name is handled twice: the distinct symbols have pairwise
      different names. */
  lemma {:induction false} DistinctNamesDiffer(symbols: seq<Symbol>)
    ensures var d := Distinct(symbols);
      forall i, j :: 0 <= i < j < |d| ==> d[i].name != d[j].name
    decreases |symbols|
  {
    if symbols != [] {
      var init, s := symbols[..|symbols| - 1], symbols[|symbols| - 1];
      assert symbols == init + [s];
      DistinctNamesDiffer(init);
      DistinctSnoc(init, s);
      var seen := Distinct(init);
      if s.name !in Names(seen) {
        assert forall i :: 0 <= i < |seen| ==> Names(seen)[i] == seen[i].name;
      }
    }
  }

  /** No name is lost: a name occurs in the directives exactly when one of
      the distinct symbols carries it. */
  lemma {:induction false} DistinctCoversNames(symbols: seq<Symbol>)
    ensures forall n :: n in Names(symbols) <==> n in Names(Distinct(symbols))
    decreases |symbols|
  {
    if symbols != [] {
      var init, s := symbols[..|symbols| - 1], symbols[|symbols| - 1];
      assert symbols == init + [s];
      DistinctCoversNames(init);
      DistinctSnoc(init, s);
      NamesSnoc(init, s);
      NamesSnoc(Distinct(init), s);
    }
  }

  /** The first occurrence wins: each distinct symbol is the first symbol
      carrying its name, so its type is the one that name was first given. */
  lemma {:induction false} DistinctKeepsFirst(symbols: seq<Symbol>)
    ensures var d := Distinct(symbols);
      forall k :: 0 <= k < |d| ==> d[k].name in Names(symbols) && d[k] == FirstNamed(symbols, d[k].name)
    decreases |symbols|
  {
    if symbols != [] {
      var init, s := symbols[..|symbols| - 1], symbols[|symbols| - 1];
      assert symbols == init + [s];
      DistinctKeepsFirst(init);
      DistinctSnoc(init, s);
      var seen := Distinct(init);
      forall k | 0 <= k < |seen|
        ensures seen[k].name in Names(symbols) && FirstNamed(symbols, seen[k].name) == seen[k]
      {
        FirstNamedAppend(init, s, seen[k].name);
      }
      var d := Distinct(symbols);
      if s.name !in Names(seen) {
        DistinctCoversNames(init);
        FirstNamedLast(init, s);
        assert d == seen + [s];
      } else {
        assert d == seen;
      }
      forall k | 0 <= k < |d| ensures d[k].name in Names(symbols) && d[k] == FirstNamed(symbols, d[k].name) {
        if k < |seen| {
          assert d[k] == seen[k];
        }
      }
    }
  }

  /** The symbols whose type has a zero value. */
  function Defined(symbols: seq<Symbol>): seq<Symbol>
    decreases |symbols|
  {
    if symbols == [] then []
    else
      var init := Defined(symbols[..|symbols| - 1]);
      var s := symbols[|symbols| - 1];
      if MakeTypeConstructor(s.typeName).Some? then init + [s] else init
  }

  /** The symbols whose type has none. */
  function Undeclared(symbols: seq<Symbol>): seq<Symbol>
    decreases |symbols|
  {
    if symbols == [] then []
    else
      var init := Undeclared(symbols[..|symbols| - 1]);
      var s := symbols[|symbols| - 1];
      if MakeTypeConstructor(s.typeName).None? then init + [s] else init
  }

  /** Every symbol goes to exactly one side: a `-D` definition when its type
      has a zero value, a prefix declaration otherwise. */
  lemma {:induction false} EachSymbolOneSide(symbols: seq<Symbol>)
    ensures |Defined(symbols)| + |Undeclared(symbols)| == |symbols|
    ensures forall s :: s in symbols ==>
      (s in Defined(symbols) <==> MakeTypeConstructor(s.typeName).Some?) &&
      (s in Undeclared(symbols) <==> MakeTypeConstructor(s.typeName).None?)
    ensures forall k :: 0 <= k < |Defined(symbols)| ==>
      Defined(symbols)[k] in symbols && MakeTypeConstructor(Defined(symbols)[k].typeName).Some?
    ensures forall k :: 0 <= k < |Undeclared(symbols)| ==>
      Undeclared(symbols)[k] in symbols && MakeTypeConstructor(Undeclared(symbols)[k].typeName).None?
    decreases |symbols|
  {
    if symbols != [] {
      var init := symbols[..|symbols| - 1];
      EachSymbolOneSide(init);
      assert symbols == init + [symbols[|symbols| - 1]];
    }
  }

  /** The `-D name=value` arguments of one symbol: none when its type has no
      zero value. */
  function DefineOf(s: Symbol): seq<string> {
    match MakeTypeConstructor(s.typeName)
    case Some(ctor) => ["-D", s.name + "=" + ctor]
    case None => []
  }

  function DefineArgs(symbols: seq<Symbol>): seq<string>
    decreases |symbols|
  {
    if symbols == [] then []
    else DefineArgs(symbols[..|symbols| - 1]) + DefineOf(symbols[|symbols| - 1])
  }

  /** The arguments are one `-D`, `name=value` pair per defined symbol, in
      order. */
  lemma {:induction false} DefineArgsPairs(symbols: seq<Symbol>)
    ensures forall k :: 0 <= k < |Defined(symbols)| ==> MakeTypeConstructor(Defined(symbols)[k].typeName).Some?
    ensures var defined, args := Defined(symbols), DefineArgs(symbols);
      |args| == 2 * |defined| &&
      forall k :: 0 <= k < |defined| ==>
        args[2 * k] == "-D" && args[2 * k + 1] == defined[k].name + "=" + MakeTypeConstructor(defined[k].typeName).value
    decreases |symbols|
  {
    EachSymbolOneSide(symbols);
    if symbols != [] {
      var init := symbols[..|symbols| - 1];
      DefineArgsPairs(init);
    }
  }

  /** What the INPUTS loop keeps: the names handled so far, the predefined
      symbols and the arguments with their `-D` definitions. */
  predicate Collected(defaultArgs: seq<string>, seen: seq<Symbol>,
                      args: seq<string>, symbols: seq<string>, predefined: seq<Symbol>)
  {
    var d := Distinct(seen);
    symbols == Names(d) && predefined == Undeclared(d) && args == defaultArgs + DefineArgs(d)
  }

  lemma DefinedSnoc(symbols: seq<Symbol>, s: Symbol)
    ensures Undeclared(symbols + [s]) == Undeclared(symbols) + (if MakeTypeConstructor(s.typeName).None? then [s] else [])
    ensures DefineArgs(symbols + [s]) == DefineArgs(symbols) + DefineOf(s)
  {
    assert (symbols + [s])[..|symbols|] == symbols;
  }

  /** One symbol more: a new name is recorded, and goes to the arguments or
      to the predefined symbols by its type; a name already seen changes
      nothing. */
  lemma CollectStep(defaultArgs: seq<string>, seen: seq<Symbol>, s: Symbol,
                    args: seq<string>, symbols: seq<string>, predefined: seq<Symbol>)
    requires Collected(defaultArgs, seen, args, symbols, predefined)
    ensures s.name in symbols ==> Collected(defaultArgs, seen + [s], args, symbols, predefined)
    ensures s.name !in symbols && MakeTypeConstructor(s.typeName).None? ==>
      Collected(defaultArgs, seen + [s], args, symbols + [s.name], predefined + [s])
    ensures s.name !in symbols && MakeTypeConstructor(s.typeName).Some? ==>
      Collected(defaultArgs, seen + [s], args + ["-D", s.name + "=" + MakeTypeConstructor(s.typeName).value],
                symbols + [s.name], predefined)
  {
    var d := Distinct(seen);
    DistinctSnoc(seen, s);
    if s.name !in symbols {
      NamesSnoc(d, s);
      DefinedSnoc(d, s);
      Assoc(defaultArgs, DefineArgs(d), DefineOf(s));
    }
  }

  /** The INPUTS loop: walks the directives' symbols in order and handles
      each name the first time it appears, either adding `-D name=value` to
      the arguments or recording the symbol as predefined. */
  method CollectInputs(defaultArgs: seq<string>, directives: seq<Directive>)
    returns (args: seq<string>, symbols: seq<string>, predefined: seq<Symbol>)
    ensures symbols == Names(Distinct(AllSymbols(directives)))
    ensures predefined == Undeclared(Distinct(AllSymbols(directives)))
    ensures args == defaultArgs + DefineArgs(Distinct(AllSymbols(directives)))
  {
    args, symbols, predefined := defaultArgs, [], [];
    var i := 0;
    while i < |directives|
      invariant 0 <= i <= |directives|
      invariant Collected(defaultArgs, AllSymbols(directives[..i]), args, symbols, predefined)
    {
      ghost var before := AllSymbols(directives[..i]);
      var d := directives[i];
      var typeName := TypeNameOf(d);
      args, symbols, predefined := CollectSymbols(defaultArgs, before, typeName, Split(d.list, ','), args, symbols, predefined);
      assert directives[..i + 1][..i] == directives[..i];
      assert AllSymbols(directives[..i + 1]) == before + SymbolsOf(directives[i]);
      i := i + 1;
    }
    assert directives[..|directives|] == directives;
  }

  /** The inner loop, over the pieces of one directive's list. */
  method CollectSymbols(defaultArgs: seq<string>, ghost before: seq<Symbol>, typeName: string, pieces: seq<string>,
                        args0: seq<string>, symbols0: seq<string>, predefined0: seq<Symbol>)
    returns (args: seq<string>, symbols: seq<string>, predefined: seq<Symbol>)
    requires Collected(defaultArgs, before, args0, symbols0, predefined0)
    ensures Collected(defaultArgs, before + Listed(pieces, typeName), args, symbols, predefined)
  {
    args, symbols, predefined := args0, symbols0, predefined0;
    assert before + Listed(pieces[..0], typeName) == before;
    var j := 0;
    while j < |pieces|
      invariant 0 <= j <= |pieces|
      invariant Collected(defaultArgs, before + Listed(pieces[..j], typeName), args, symbols, predefined)
    {
      var symbol := Trim(pieces[j]);
      CollectNext(defaultArgs, before, pieces, j, typeName, args, symbols, predefined);
      if symbol !in symbols {
        symbols := symbols + [symbol];
        var typeConstructor := MakeTypeConstructor(typeName);
        if typeConstructor.None? {
          predefined := predefined + [Symbol(symbol, typeName)];
        } else {
          args := args + ["-D", symbol + "=" + typeConstructor.value];
        }
      }
      j := j + 1;
    }
    assert pieces[..|pieces|] == pieces;
  }

  /** `CollectStep` for the next piece of a directive's list. */
  lemma CollectNext(defaultArgs: seq<string>, before: seq<Symbol>, pieces: seq<string>, j: nat, typeName: string,
                    args: seq<string>, symbols: seq<string>, predefined: seq<Symbol>)
    requires j < |pieces|
    requires Collected(defaultArgs, before + Listed(pieces[..j], typeName), args, symbols, predefined)
    ensures var next, s := before + Listed(pieces[..j + 1], typeName), Symbol(Trim(pieces[j]), typeName);
      (s.name in symbols ==> Collected(defaultArgs, next, args, symbols, predefined)) &&
      (s.name !in symbols && MakeTypeConstructor(typeName).None? ==>
        Collected(defaultArgs, next, args, symbols + [s.name], predefined + [s])) &&
      (s.name !in symbols && MakeTypeConstructor(typeName).Some? ==>
        Collected(defaultArgs, next, args + ["-D", s.name + "=" + MakeTypeConstructor(typeName).value],
                  symbols + [s.name], predefined))
  {
    ListedNext(before, pieces, j, typeName);
    CollectStep(defaultArgs, before + Listed(pieces[..j], typeName), Symbol(Trim(pieces[j]), typeName),
                args, symbols, predefined);
  }

  // ---- The prefix ----

  /** The declaration line of a symbol whose type has no zero value. */
  function Declaration(s: Symbol): string {
    s.typeName + " " + s.name + ";"
  }

  function Declarations(predefined: seq<Symbol>): (lines: seq<string>)
    ensures |lines| == |predefined| && forall k :: 0 <= k < |predefined| ==> lines[k] == Declaration(predefined[k])
  {
    seq(|predefined|, k requires 0 <= k < |predefined| => Declaration(predefined[k]))
  }

  /** Builds the prefix, one terminated declaration per predefined symbol,
      and counts its lines. */
  method BuildPrefix(predefined: seq<Symbol>) returns (prefix: string, addedLines: nat)
    ensures prefix == Terminated(Declarations(predefined))
    ensures addedLines == |predefined|
  {
    prefix, addedLines := "", 0;
    var k := 0;
    while k < |predefined|
      invariant 0 <= k <= |predefined|
      invariant prefix == Terminated(Declarations(predefined[..k]))
      invariant addedLines == k
    {
      TerminatedSnoc(Declarations(predefined[..k]), Declaration(predefined[k]));
      assert Declarations(predefined[..k + 1]) == Declarations(predefined[..k]) + [Declaration(predefined[k])];
      prefix := prefix + Declaration(predefined[k]) + "\n";
      addedLines := addedLines + 1;
      k := k + 1;
    }
    assert predefined[..k] == predefined;
  }

  /** Puts the declarations in front of the text the compiler reads and
      has the parser take those lines back out of every reported line
      number; the parser's buffer and diagnostics are left alone. */
  method PrefixSource(parser: OutputParser.CompilerOutputParser, predefined: seq<Symbol>, text: string)
    returns (source: string)
    modifies parser`lineOffset
    ensures parser.lineOffset == -|predefined|
    ensures parser.data == old(parser.data) && parser.diagnostics == old(parser.diagnostics)
    ensures source == Terminated(Declarations(predefined)) + text
  {
    var prefix, addedLines := BuildPrefix(predefined);
    parser.SetLineOffset(-(addedLines as int));
    source := prefix + text;
  }

  /** The prefix adds exactly its declarations as lines in front of the
      text's own lines, so line `addedLines + k` of what the compiler reads
      is line `k` of the document. */
  lemma PrefixShiftsLines(predefined: seq<Symbol>, text: string)
    requires forall k :: 0 <= k < |predefined| ==> '\n' !in Declaration(predefined[k])
    ensures CompleteLines(Terminated(Declarations(predefined)) + text) == Declarations(predefined) + CompleteLines(text)
    ensures Pending(Terminated(Declarations(predefined)) + text) == Pending(text)
  {
    var decls := Declarations(predefined);
    TerminatedLines(decls, "");
    assert Terminated(decls) + "" == Terminated(decls);
    LinesAppend(Terminated(decls), text);
    assert Pending(Terminated(decls)) + text == text;
  }

  /** Line `addedLines + k` of what the compiler reads is line `k` of the
      text. */
  lemma PrefixedLine(predefined: seq<Symbol>, text: string, k: nat)
    requires forall k :: 0 <= k < |predefined| ==> '\n' !in Declaration(predefined[k])
    requires k < |CompleteLines(text)|
    ensures |predefined| + k < |CompleteLines(Terminated(Declarations(predefined)) + text)|
    ensures CompleteLines(Terminated(Declarations(predefined)) + text)[|predefined| + k] == CompleteLines(text)[k]
  {
    PrefixShiftsLines(predefined, text);
  }

  /** With the offset set to minus the number of prefix lines, the line
      number the compiler prints for the line after the prefix and `k` further
      lines (1-based, `addedLines + k + 1`) is read back as the 0-based line
      `k` of the document. */
  lemma OffsetUndoesPrefix(addedLines: nat, k: nat)
    ensures OutputParser.TargetLine(OutputParser.Decimal(addedLines + k + 1), -(addedLines as int)) == k
  {
    OutputParser.DecimalRoundTrip(addedLines + k + 1);
  }
}
