/**
 * Worked examples of the canonical grammar, the argument-type scan and the
 * normaliser.
 */
module SignatureExamples {
  import opened Outcomes
  import opened SolidityLexer
  import opened SolidityTypes
  import opened FunctionSignature
  import opened SignatureNormalizer
  import opened ArgumentScan

  lemma FooIsName()
    ensures IsName("foo")
  {
    AllInOfEach("foo", 0, 3, NameChar);
  }

  lemma EmptyArraySuffix()
    ensures IsSubTypes("[]")
  {
    assert RunEnd("[]", 1, Digit) == 1;
    assert SubTypeEnd("[]", 0) == 2;
  }

  /** An array of a canonical type is canonical. */
  lemma CanonicalArrayAccepted(x: string)
    requires x == "foo(uint256[])"
    ensures IsCanonicalFunctionSignature(x)
  {
    FooIsName();
    UintArrayList("uint256[]");
    SignatureShape("foo", "uint256[]");
    CanonicalArrayText();
  }

  lemma CanonicalArrayText()
    ensures "foo" + "(" + "uint256[]" + ")" == "foo(uint256[])"
  {
  }

  lemma UintArrayList(l: string)
    requires l == "uint256[]"
    ensures IsCanonicalArgumentList(l)
  {
    var a := RawArgument("uint256", "[]");
    Uint256Canonical();
    EmptyArraySuffix();
    JoinOneIsList(a);
    assert JoinArguments([a]) == "uint256[]";
  }

  /** An empty argument list is canonical. */
  lemma EmptyArgumentsAccepted()
    ensures IsCanonicalFunctionSignature("foo()")
  {
    FooIsName();
    SignatureShape("foo", "");
    assert "foo" + "(" + "" + ")" == "foo()";
  }

  /** An alias is not canonical. */
  lemma AliasRejected()
    ensures !IsCanonicalFunctionSignature("foo(uint)")
  {
    var x := "foo(uint)";
    AllInOfEach(x, 0, 3, NameChar);
    RunEndOf(x, 0, 3, NameChar);
    var l := x[4..|x| - 1];
    assert l == "uint";
    AllInOfEach(l, 0, 4, LowerAlnum);
    RunEndOf(l, 0, 4, LowerAlnum);
    assert l[0..4] == "uint";
    AliasNotCanonical("uint");
  }

  /** A parameter name is not part of a canonical signature. */
  lemma ParameterNameRejected()
    ensures !IsCanonicalFunctionSignature("foo(uint256 a)")
  {
    var x := "foo(uint256 a)";
    AllInOfEach(x, 0, 3, NameChar);
    RunEndOf(x, 0, 3, NameChar);
    var l := x[4..|x| - 1];
    assert l == "uint256 a";
    AllInOfEach(l, 0, 7, LowerAlnum);
    RunEndOf(l, 0, 7, LowerAlnum);
    assert SubTypeEnd(l, 7) == 7;
  }

  /* ---- The argument-type scan ---------------------------------------------- */

  lemma AliasIsType(w: string)
    requires w == "uint" || w == "int"
    ensures InVocabulary(w, AnyType)
  {
    AliasWords(w);
    InPatternsMember(w, StaticTypeAliases);
    InPatternsMember(w, Patterns(AnyType));
    var p :| p in StaticTypeAliases && MatchesPattern(w, p);
    assert p in Patterns(AnyType);
  }

  /** Type words start with `a`, `b`, `i`, `s` or `u`; the only one starting with `a`
      is `address`, and those starting with `u` are `uint` and longer `uint` words. */
  lemma NotTypeWord(w: string)
    requires |w| > 0 && w[0] != 'b' && w[0] != 'i' && w[0] != 's'
    requires w[0] == 'a' ==> w != "address"
    requires w[0] == 'u' ==> |w| <= 4 && w != "uint"
    ensures !InVocabulary(w, AnyType)
  {
    var ps := Patterns(AnyType);
    forall i | 0 <= i < |ps|
      ensures !MatchesPattern(w, ps[i])
    {
      if ps[i].Sized? && |w| > |ps[i].prefix| {
        assert w[..|ps[i].prefix|][0] == w[0];
      }
    }
    NoPatternMatches(w, ps);
  }

  lemma ScanPoint()
    ensures ScanArgumentTypes("point") == ScanArgumentTypes("int")
  {
    var s := "point";
    AllInOfEach(s, 0, 5, LowerAlnum);
    RunEndOf(s, 0, 5, LowerAlnum);
    NotTypeWord(s[0..5]);
    assert s[1..] == "oint";
    var o := "oint";
    AllInOfEach(o, 0, 4, LowerAlnum);
    RunEndOf(o, 0, 4, LowerAlnum);
    NotTypeWord(o[0..4]);
    assert o[1..] == "int";
  }

  lemma ScanInt()
    ensures ScanArgumentTypes("int") == [RawArgument("int", "")]
  {
    var s := "int";
    AllInOfEach(s, 0, 3, LowerAlnum);
    AliasIsType("int");
    MatchTypeIsAlternation(s, 0, "int", AnyType);
    ScanStep(s, "int", 3, 3);
    assert s[3..3] == "" && s[3..] == "";
  }

  lemma ScanUintPoint(s: string)
    requires s == "uint point"
    ensures ScanArgumentTypes(s) == [RawArgument("uint", "")] + ScanArgumentTypes("point")
  {
    AliasIsType("uint");
    assert IsSubTypes("");
    OneSpace();
    ParameterHead("uint", "", " ", "point");
    UintPointText();
  }

  lemma UintPointText()
    ensures "uint" + "" + (" " + "point") == "uint point"
  {
  }

  /** The scan also finds type words inside parameter names: the `int` at the end of
      `point` is read as a second argument. */
  lemma ScanFindsTypeInsideName()
    ensures ScanArgumentTypes("uint point") == [RawArgument("uint", ""), RawArgument("int", "")]
  {
    ScanUintPoint("uint point");
    ScanPoint();
    ScanInt();
  }

  /** The scanned pairs, made canonical and joined, as the normaliser writes them. */
  lemma CanonicalTextOfQuirk()
    ensures JoinArguments(CanonicalArguments([RawArgument("uint", ""), RawArgument("int", "")])) == "uint256,int256"
  {
  }

  /* ---- Whole declarations through the normaliser ------------------------------ */

  /** The declaration text `function NAME(ARGS)`. */
  function Declaration(name: string, args: string): string {
    FunctionKeyword + " " + name + "(" + args + ")"
  }

  /** On `function NAME(ARGS)`, with ARGS free of parentheses, the name extractor returns
      NAME and ARGS, unless NAME is `function`. */
  lemma ExtractDeclaration(name: string, args: string)
    requires IsName(name) && forall k | 0 <= k < |args| :: args[k] != '(' && args[k] != ')'
    ensures ExtractFunctionName(Declaration(name, args)) ==
      if name == FunctionKeyword then Err(BadFunctionName) else Ok(NameMatch(name, args))
  {
    var x := Declaration(name, args);
    var c := 9 + |name|;
    var z := c + 1 + |args|;
    DeclarationHeader(name, args);
    DeclarationLayout(name, args, x);
    ExtractOnHeader(x, RawHeader(0, 9, c, c, z));
  }

  /** `function NAME(ARGS)` is one whole header. */
  lemma DeclarationHeader(name: string, args: string)
    requires IsName(name) && forall k | 0 <= k < |args| :: args[k] != '(' && args[k] != ')'
    ensures IsHeaderText(Declaration(name, args), RawHeader(0, 9, 9 + |name|, 9 + |name|, 10 + |name| + |args|))
  {
    var x := Declaration(name, args);
    var c := 9 + |name|;
    var z := c + 1 + |args|;
    DeclarationLayout(name, args, x);
    AllInOfEach(x, 8, 9, Space);
    NameInDeclaration(name, x);
    AllInOfEach(x, c, c, Space);
    ArgumentsInDeclaration(args, x, c, z);
    HeaderFactsIntro(x, 0, 9, c, c, z);
  }

  lemma NameInDeclaration(name: string, x: string)
    requires IsName(name) && 9 + |name| <= |x| && x[9..9 + |name|] == name
    ensures AllIn(x, 9, 9 + |name|, NameChar)
  {
    AgreeOfSlices(name, 0, x, 9, |name|);
    AllInTransfer(name, 0, x, 9, |name|, NameChar);
  }

  lemma ArgumentsInDeclaration(args: string, x: string, c: nat, z: nat)
    requires c + 1 <= z <= |x| && x[c + 1..z] == args
    requires forall k | 0 <= k < |args| :: args[k] != '(' && args[k] != ')'
    ensures AllIn(x, c + 1, z, NotParen)
  {
    forall p | c + 1 <= p < z
      ensures InClass(x[p], NotParen)
    {
      assert x[p] == args[p - c - 1];
    }
    AllInOfEach(x, c + 1, z, NotParen);
  }

  /** Where the pieces of `function NAME(ARGS)` lie. */
  lemma DeclarationLayout(name: string, args: string, x: string)
    requires IsName(name) && x == Declaration(name, args)
    ensures var c := 9 + |name|; var z := c + 1 + |args|;
      && |x| == z + 1 && x[..8] == FunctionKeyword && x[8] == ' ' && x[9..c] == name
      && IsNameStart(x[9]) && x[c] == '(' && x[c + 1..z] == args && x[z] == ')'
  {
    var c := 9 + |name|;
    var z := c + 1 + |args|;
    assert x[9..c] == name;
    assert x[9] == name[0];
    assert x[c + 1..z] == args;
  }

  /** The normaliser keeps the name of `function NAME(ARGS)` and writes the scanned
      pairs of ARGS in canonical form between parentheses. */
  lemma NormalizeDeclaration(name: string, args: string)
    requires IsName(name) && name != FunctionKeyword
    requires forall k | 0 <= k < |args| :: args[k] != '(' && args[k] != ')'
    ensures NormalizeFunctionSignature(Declaration(name, args))
         == Ok(name + "(" + JoinArguments(CanonicalArguments(ScanArgumentTypes(args))) + ")")
  {
    ExtractDeclaration(name, args);
  }

  /** A name of `[a-z0-9]` characters holds no type word when none of them is `b`, `i`
      or `s`, no `a` is followed by exactly six characters (`address`) and every `u` by
      fewer than three (`uint` and longer). */
  lemma LowerNameHoldsNoType(name: string)
    requires forall k | 0 <= k < |name| :: IsLowerAlnum(name[k]) && name[k] != 'b' && name[k] != 'i' && name[k] != 's'
    requires forall k | 0 <= k < |name| :: (name[k] == 'a' ==> |name| - k != 7) && (name[k] == 'u' ==> |name| - k < 4)
    ensures NameHoldsNoType(name)
  {
    forall k | 0 <= k < |name|
      ensures MatchType(name[k..], 0, AnyType).None?
    {
      var y := name[k..];
      assert y[0] == name[k];
      NotTypeWord(y);
      AllInOfEach(y, 0, |y|, LowerAlnum);
      RunEndOf(y, 0, |y|, LowerAlnum);
      assert y[0..|y|] == y;
    }
  }

  lemma AddressIsType()
    ensures InVocabulary("address", AnyType)
  {
    InPatternsMember("address", Patterns(AnyType));
    assert Patterns(AnyType)[0] == Word("address");
  }

  lemma NestedArraySuffix()
    ensures IsSubTypes("[3][]")
  {
    var x := "[3][]";
    AllInOfEach(x, 1, 2, Digit);
    SubTypeEndFinds(x, 0, 3);
    SubTypeEndFinds(x, 3, 5);
  }

  lemma OneSpace()
    ensures AllIn(" ", 0, 1, Space)
  {
    AllInOfEach(" ", 0, 1, Space);
  }

  /** `address to` followed by `, `. */
  lemma AddressTo()
    ensures WellDeclared(Parameter("address", "", " ", "to", ", "))
  {
    AddressIsType();
    assert IsSubTypes("");
    OneSpace();
    AllInOfEach("to", 0, 2, NameChar);
    LowerNameHoldsNoType("to");
  }

  lemma AmountIsName()
    ensures IsName("amount") && NameHoldsNoType("amount")
  {
    AllInOfEach("amount", 0, 6, NameChar);
    LowerNameHoldsNoType("amount");
  }

  /** `uint amount`, the last parameter. */
  lemma UintAmount()
    ensures WellDeclared(Parameter("uint", "", " ", "amount", ""))
  {
    AliasIsType("uint");
    assert IsSubTypes("");
    OneSpace();
    AmountIsName();
  }

  const TransferParameters: seq<Parameter> :=
    [Parameter("address", "", " ", "to", ", "), Parameter("uint", "", " ", "amount", "")]

  lemma TransferDeclaredText()
    ensures DeclaredText(TransferParameters) == "address to, uint amount"
  {
    var ps := TransferParameters;
    assert DeclaredText(ps[2..]) == "";
    assert DeclaredText(ps[1..]) == "uint amount";
  }

  lemma TransferArguments()
    ensures ScanArgumentTypes("address to, uint amount") == [RawArgument("address", ""), RawArgument("uint", "")]
  {
    AddressTo();
    UintAmount();
    TransferDeclaredText();
    ScanDeclared(TransferParameters);
  }

  lemma TransferText()
    ensures Declaration("transfer", "address to, uint amount") == "function transfer(address to, uint amount)"
  {
    assert FunctionKeyword + " " + "transfer" == "function transfer";
    assert "function transfer" + "(" + "address to, uint amount" == "function transfer(address to, uint amount";
  }

  lemma TransferResultText()
    ensures "transfer" + "(" + "address,uint256" + ")" == "transfer(address,uint256)"
  {
  }

  lemma TransferCanonicalText()
    ensures JoinArguments(CanonicalArguments([RawArgument("address", ""), RawArgument("uint", "")])) == "address,uint256"
  {
  }

  /** Parameter names are dropped and aliases widened. */
  lemma NormalizeTransfer()
    ensures NormalizeFunctionSignature("function transfer(address to, uint amount)")
         == Ok("transfer(address,uint256)")
  {
    var args := "address to, uint amount";
    AllInOfEach("transfer", 0, 8, NameChar);
    NormalizeDeclaration("transfer", args);
    TransferArguments();
    TransferCanonicalText();
    TransferText();
    TransferResultText();
  }

  /** `uint[3][] a`, the one parameter of `foo`. */
  lemma UintArrayA()
    ensures WellDeclared(Parameter("uint", "[3][]", " ", "a", ""))
  {
    AliasIsType("uint");
    NestedArraySuffix();
    OneSpace();
    AllInOfEach("a", 0, 1, NameChar);
    LowerNameHoldsNoType("a");
  }

  lemma NestedArrayArguments()
    ensures ScanArgumentTypes("uint[3][] a") == [RawArgument("uint", "[3][]")]
  {
    var ps := [Parameter("uint", "[3][]", " ", "a", "")];
    UintArrayA();
    assert DeclaredText(ps[1..]) == "";
    assert DeclaredText(ps) == "uint[3][] a";
    ScanDeclared(ps);
  }

  lemma NestedArrayText()
    ensures Declaration("foo", "uint[3][] a") == "function foo(uint[3][] a)"
  {
  }

  lemma NestedArrayResultText()
    ensures "foo" + "(" + "uint256[3][]" + ")" == "foo(uint256[3][])"
  {
  }

  lemma NestedArrayCanonicalText()
    ensures JoinArguments(CanonicalArguments([RawArgument("uint", "[3][]")])) == "uint256[3][]"
  {
  }

  /** Array suffixes stay with the widened type. */
  lemma NormalizeNestedArray()
    ensures NormalizeFunctionSignature("function foo(uint[3][] a)") == Ok("foo(uint256[3][])")
  {
    var args := "uint[3][] a";
    FooIsName();
    NormalizeDeclaration("foo", args);
    NestedArrayArguments();
    NestedArrayCanonicalText();
    NestedArrayText();
    NestedArrayResultText();
  }

  lemma TypeInsideNameText()
    ensures Declaration("f", "uint point") == "function f(uint point)"
    ensures "f" + "(" + "uint256,int256" + ")" == "f(uint256,int256)"
  {
  }

  /** The `int` inside the name `point` becomes a second argument. */
  lemma NormalizeTypeInsideName()
    ensures NormalizeFunctionSignature("function f(uint point)") == Ok("f(uint256,int256)")
  {
    var args := "uint point";
    AllInOfEach("f", 0, 1, NameChar);
    NormalizeDeclaration("f", args);
    ScanFindsTypeInsideName();
    CanonicalTextOfQuirk();
    TypeInsideNameText();
  }
}
