/**
 Properties of the token tables and of the functions over them: the
 round-trips between the lookups and the display names, the exact images of
 the two lookups, and a reading of the display form back into its parts.
 */
module TokenProperties {
  import opened Tokens

  datatype Option<T> = None | Some(value: T)

  /** What a display string shows: a kind name and, possibly, a data string. */
  datatype Shown = Shown(kindName: string, data: Option<string>)

  /** The position of the first `c` in `s`, if any. */
  function IndexOf(s: string, c: char): (r: Option<nat>)
    ensures r.Some? ==> r.value < |s| && s[r.value] == c && c !in s[..r.value]
    ensures r.None? <==> c !in s
  {
    if s == [] then None
    else if s[0] == c then Some(0)
    else
      match IndexOf(s[1..], c)
      case None => None
      case Some(i) => Some(i + 1)
  }

  /** Reads what follows the kind name in a display string: the bare suffix,
      or the data fragment with the data string inside it. */
  function ParseTail(tail: string): (r: Option<Option<string>>)
    ensures r.Some? ==> |tail| >= |Suffix| && tail[0] == '\''
  {
    if tail == Suffix then
      Some(None)
    else if DataInfix <= tail && |tail| >= |DataInfix| + |Suffix|
            && tail[|tail| - |Suffix|..] == Suffix then
      Some(Some(tail[|DataInfix|..|tail| - |Suffix|]))
    else
      None
  }

  /** Reads a display string back into the kind name and the data string:
      the name runs from the fixed prefix to the first apostrophe. */
  function Parse(s: string): (r: Option<Shown>)
    ensures r.Some? ==> KindPrefix + r.value.kindName <= s && '\'' !in r.value.kindName
  {
    if !(KindPrefix <= s) then None
    else
      var rest := s[|KindPrefix|..];
      match IndexOf(rest, '\'')
      case None => None
      case Some(i) =>
        match ParseTail(rest[i..])
        case None => None
        case Some(data) => Some(Shown(rest[..i], data))
  }

  // ---------------------------------------------------------------------
  // The name table

  /** The name table read backwards: the code whose name is `name`, or -1
      when no code has that name. */
  function CodeOfName(name: string): (k: int)
    ensures k == -1 || IsCode(k)
  {
    match name
    case "None" => 0
    case "Identifier" => 1
    case "Number" => 2
    case "CharacterConstant" => 3
    case "+" => 4
    case "-" => 5
    case "*" => 6
    case "/" => 7
    case "%" => 8
    case "==" => 9
    case "!=" => 10
    case "<" => 11
    case "<=" => 12
    case ">" => 13
    case ">=" => 14
    case "=" => 15
    case ";" => 16
    case "," => 17
    case "." => 18
    case "(" => 19
    case ")" => 20
    case "[" => 21
    case "]" => 22
    case "{" => 23
    case "}" => 24
    case "class" => 25
    case "else" => 26
    case "final" => 27
    case "if" => 28
    case "new" => 29
    case "print" => 30
    case "program" => 31
    case "read" => 32
    case "return" => 33
    case "void" => 34
    case "while" => 35
    case "EOF" => 36
    case _ => -1
  }

  /** Reading a declared code's name backwards gives the code. */
  lemma CodeOfNameRoundTrip(k: TokenCode)
    requires IsCode(k)
    ensures CodeOfName(TokenName(k)) == k
  {
  }

  /** Every code found by reading a name backwards has that name. */
  lemma NameOfCodeRoundTrip(name: string)
    requires CodeOfName(name) != -1
    ensures TokenName(CodeOfName(name)) == name
  {
  }

  /** Every declared code has a distinct name. */
  lemma TokenNameInjective(j: TokenCode, k: TokenCode)
    requires TokenName(j) == TokenName(k) != ""
    ensures j == k
  {
    CodeOfNameRoundTrip(j);
    CodeOfNameRoundTrip(k);
  }

  /** No name contains an apostrophe, so a name is delimited in the display
      form by the apostrophe that follows it. */
  lemma TokenNameHasNoQuote(k: TokenCode)
    ensures '\'' !in TokenName(k)
  {
  }

  // ---------------------------------------------------------------------
  // The display form

  /** The first apostrophe after a quote-free prefix is the one just after it. */
  lemma {:induction false} IndexOfAfter(a: string, b: string, c: char)
    requires c !in a
    ensures IndexOf(a + [c] + b, c) == Some(|a|)
  {
    var s := a + [c] + b;
    assert s[|a|] == c;
  }

  /** A quote-free name is read up to the apostrophe that follows it, and
      the rest is read as the tail. */
  lemma ParseSplit(name: string, tail: string)
    requires '\'' !in name
    requires |tail| > 0 && tail[0] == '\''
    ensures ParseTail(tail).Some? ==>
      Parse(KindPrefix + name + tail) == Some(Shown(name, ParseTail(tail).value))
  {
    var s := KindPrefix + name + tail;
    assert s[..|KindPrefix|] == KindPrefix;
    var rest := s[|KindPrefix|..];
    assert rest == name + ['\''] + tail[1..];
    IndexOfAfter(name, tail[1..], '\'');
    assert rest[..|name|] == name;
    assert rest[|name|..] == tail;
  }

  /** The data fragment reads back as the data string it holds, whatever
      characters that string contains. */
  lemma ParseTailData(data: string)
    ensures ParseTail(DataInfix + data + Suffix) == Some(Some(data))
  {
    var tail := DataInfix + data + Suffix;
    assert |tail| == |DataInfix| + |data| + |Suffix|;
    assert tail[..|DataInfix|] == DataInfix;
    assert tail[|tail| - |Suffix|..] == Suffix;
    assert tail[|DataInfix|..|tail| - |Suffix|] == data;
  }

  /** The display form of a token reads back as its kind's name, with the data
      string exactly for identifiers and numbers. */
  lemma StringRoundTrip(t: Token)
    ensures Parse(t.String()) ==
      Some(Shown(TokenName(t.kind), if ShowsData(t.kind) then Some(t.data) else None))
  {
    TokenNameHasNoQuote(t.kind);
    if ShowsData(t.kind) {
      ParseTailData(t.data);
      assert t.String() == KindPrefix + TokenName(t.kind) + (DataInfix + t.data + Suffix);
      ParseSplit(TokenName(t.kind), DataInfix + t.data + Suffix);
    } else {
      assert ParseTail(Suffix) == Some(None);
      ParseSplit(TokenName(t.kind), Suffix);
    }
  }

  /** What follows the kind name in a display form showing `data`. */
  function Fragment(data: Option<string>): string {
    if data.Some? then DataInfix + data.value + Suffix else Suffix
  }

  /** Every tail that reads back is the fragment built from what it shows. */
  lemma ParseTailSound(tail: string)
    requires ParseTail(tail).Some?
    ensures tail == Fragment(ParseTail(tail).value)
  {
    if tail != Suffix {
      var data := tail[|DataInfix|..|tail| - |Suffix|];
      assert tail[..|DataInfix|] == DataInfix;
      assert tail == tail[..|DataInfix|] + data + tail[|tail| - |Suffix|..];
    }
  }

  /** Conversely, every string that reads back is the display form built from
      what it shows: the prefix, the name, and either the bare suffix or the
      data fragment. */
  lemma ParseSound(s: string)
    requires Parse(s).Some?
    ensures s == KindPrefix + Parse(s).value.kindName + Fragment(Parse(s).value.data)
  {
    var rest := s[|KindPrefix|..];
    var i := IndexOf(rest, '\'').value;
    var name, tail := rest[..i], rest[i..];
    assert Parse(s) == Some(Shown(name, ParseTail(tail).value));
    ParseTailSound(tail);
    assert rest == name + tail;
    assert s == KindPrefix + rest;
  }

  /** For declared codes, the display form determines the kind, and for
      identifiers and numbers also the data string. */
  lemma StringDeterminesKindAndData(t: Token, u: Token)
    requires IsCode(t.kind)
    requires t.String() == u.String()
    ensures t.kind == u.kind
    ensures ShowsData(t.kind) ==> t.data == u.data
  {
    StringRoundTrip(t);
    StringRoundTrip(u);
    TokenNameInjective(t.kind, u.kind);
  }

  /** The display form of every end-of-stream token. */
  lemma EOFString(t: Token)
    requires t.IsEOF()
    ensures t.String() == "<Token: kind='EOF'>"
  {
  }

  /** Only the error message decides whether a token is an error: two tokens
      with the same message agree, whatever their kind, position or payload. */
  lemma IsErrorOnlyByMessage(t: Token, u: Token)
    requires t.errorMsg == u.errorMsg
    ensures t.IsError() == u.IsError()
  {
  }

  // ---------------------------------------------------------------------
  // Keywords

  /** Each reserved word has its own code. */
  lemma KeywordKinds()
    ensures GetKeywordKind("class") == TcClass
    ensures GetKeywordKind("else") == TcElse
    ensures GetKeywordKind("final") == TcFinal
    ensures GetKeywordKind("if") == TcIf
    ensures GetKeywordKind("new") == TcNew
    ensures GetKeywordKind("print") == TcPrint
    ensures GetKeywordKind("program") == TcProgram
    ensures GetKeywordKind("read") == TcRead
    ensures GetKeywordKind("return") == TcReturn
    ensures GetKeywordKind("void") == TcVoid
    ensures GetKeywordKind("while") == TcWhile
  {
  }

  /** The match is exact and case-sensitive: anything else is an identifier. */
  lemma KeywordDefaults()
    ensures GetKeywordKind("") == TcIdent
    ensures GetKeywordKind("x") == TcIdent
    ensures GetKeywordKind("Class") == TcIdent
    ensures GetKeywordKind("WHILE") == TcIdent
    ensures GetKeywordKind("iff") == TcIdent
    ensures GetKeywordKind("Identifier") == TcIdent
  {
  }

  /** Keyword code to name and back is the identity. */
  lemma KeywordRoundTrip(k: TokenCode)
    requires IsKeywordCode(k)
    ensures GetKeywordKind(TokenName(k)) == k
  {
    var w := TokenName(k);
    var r := GetKeywordKind(w);
    assert r != TcIdent;
    TokenNameInjective(r, k);
  }

  /** Keyword to code and back is the identity. */
  lemma KeywordNameRoundTrip(w: string)
    requires w in KeywordMap
    ensures TokenName(GetKeywordKind(w)) == w
  {
  }

  /** Two different reserved words never share a code. */
  lemma KeywordMapInjective(v: string, w: string)
    requires v in KeywordMap && w in KeywordMap
    requires KeywordMap[v] == KeywordMap[w]
    ensures v == w
  {
    assert GetKeywordKind(v) == GetKeywordKind(w);
    KeywordNameRoundTrip(v);
    KeywordNameRoundTrip(w);
  }

  /** The codes of the keyword table are exactly `class` through `while`. */
  lemma KeywordImage()
    ensures forall k :: k in KeywordMap.Values <==> IsKeywordCode(k)
  {
    forall k | IsKeywordCode(k)
      ensures k in KeywordMap.Values
    {
      KeywordRoundTrip(k);
      assert TokenName(k) in KeywordMap;
    }
    forall k | k in KeywordMap.Values
      ensures IsKeywordCode(k)
    {
      var w :| w in KeywordMap && KeywordMap[w] == k;
      assert GetKeywordKind(w) == k;
    }
  }

  // ---------------------------------------------------------------------
  // Operators

  /** Each of the twelve operator keys has its own code. */
  lemma OperatorKinds()
    ensures GetOperatorKind("+") == TcPlus
    ensures GetOperatorKind("-") == TcMinus
    ensures GetOperatorKind("*") == TcTimes
    ensures GetOperatorKind("%") == TcRem
    ensures GetOperatorKind(";") == TcSemicolon
    ensures GetOperatorKind(".") == TcPeriod
    ensures GetOperatorKind("(") == TcLpar
    ensures GetOperatorKind(")") == TcRpar
    ensures GetOperatorKind("[") == TcLbrack
    ensures GetOperatorKind("]") == TcRbrack
    ensures GetOperatorKind("{") == TcLbrace
    ensures GetOperatorKind("}") == TcRbrace
  {
  }

  /** Text outside the table gives the none code: "," and the one-character
      texts of the division, comparison and assignment operators ... */
  lemma OperatorDefaults()
    ensures GetOperatorKind(",") == TcNone
    ensures GetOperatorKind("/") == TcNone
    ensures GetOperatorKind("=") == TcNone
    ensures GetOperatorKind("<") == TcNone
    ensures GetOperatorKind(">") == TcNone
    ensures GetOperatorKind("!") == TcNone
  {
  }

  /** ... and the empty text and every two-character operator. */
  lemma OperatorDefaultsLonger()
    ensures GetOperatorKind("") == TcNone
    ensures GetOperatorKind("==") == TcNone
    ensures GetOperatorKind("!=") == TcNone
    ensures GetOperatorKind("<=") == TcNone
    ensures GetOperatorKind(">=") == TcNone
    ensures GetOperatorKind("++") == TcNone
  {
  }

  /** The operator lookup never yields an identifier, number, character
      constant, keyword or end-of-stream code. */
  lemma OperatorNeverClassifiesWords(op: string)
    ensures GetOperatorKind(op) != TcIdent && GetOperatorKind(op) != TcNumber
    ensures GetOperatorKind(op) != TcCharCon && GetOperatorKind(op) != TcEOF
    ensures !IsKeywordCode(GetOperatorKind(op))
  {
  }

  /** The characters that are operators on their own. */
  predicate IsOperatorChar(c: char) {
    c == '+' || c == '-' || c == '*' || c == '%' || c == ';' || c == '.'
    || c == '(' || c == ')' || c == '[' || c == ']' || c == '{' || c == '}'
  }

  /** The operator lookup succeeds exactly on the one-character texts
      `+ - * % ; . ( ) [ ] { }`. */
  lemma OperatorKindIff(op: string)
    ensures GetOperatorKind(op) != TcNone <==> |op| == 1 && IsOperatorChar(op[0])
  {
    if |op| == 1 {
      assert op == [op[0]];
    }
  }

  /** Operator code to name and back is the identity. */
  lemma OperatorRoundTrip(k: TokenCode)
    requires IsOperatorCode(k)
    ensures GetOperatorKind(TokenName(k)) == k
  {
    var r := GetOperatorKind(TokenName(k));
    assert TokenName(k) in OperatorMap;
    TokenNameInjective(r, k);
  }

  /** Operator key to code and back is the identity. */
  lemma OperatorNameRoundTrip(op: string)
    requires op in OperatorMap
    ensures TokenName(GetOperatorKind(op)) == op
  {
  }

  /** The codes of the operator table are exactly the operator codes. */
  lemma OperatorImage()
    ensures forall k :: k in OperatorMap.Values <==> IsOperatorCode(k)
  {
    forall k | IsOperatorCode(k)
      ensures k in OperatorMap.Values
    {
      OperatorRoundTrip(k);
      assert TokenName(k) in OperatorMap;
    }
    forall k | k in OperatorMap.Values
      ensures IsOperatorCode(k)
    {
      var op :| op in OperatorMap && OperatorMap[op] == k;
      assert GetOperatorKind(op) == k;
    }
  }

  /** The punctuation codes the operator table leaves out: looking up their
      own names gives the none code, so `,` in particular has a code and a
      name but is not recognised as an operator. */
  lemma UnmappedPunctuation(k: TokenCode)
    requires TcPlus <= k <= TcRbrace && !IsOperatorCode(k)
    ensures GetOperatorKind(TokenName(k)) == TcNone
  {
    var r := GetOperatorKind(TokenName(k));
    if r != TcNone {
      TokenNameInjective(r, k);
    }
  }
}
