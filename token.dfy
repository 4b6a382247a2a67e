/**
 Token classification for the MicroJava scanner: the closed set of token
 codes, the token record, the three lookup tables (code to display name,
 keyword text to code, operator text to code) and the functions over them.
 Everything here is a total function over immutable tables.
 */
module Tokens {

  /** A token code. The Go code declares `type TokenCode int`, a machine
      integer; it is widened here to `int`. The named codes are 0..36,
      assigned in declaration order. */
  type TokenCode = int

  const TcNone: TokenCode := 0
  const TcIdent: TokenCode := 1
  const TcNumber: TokenCode := 2
  const TcCharCon: TokenCode := 3
  const TcPlus: TokenCode := 4
  const TcMinus: TokenCode := 5
  const TcTimes: TokenCode := 6
  const TcSlash: TokenCode := 7
  const TcRem: TokenCode := 8
  const TcEql: TokenCode := 9
  const TcNeq: TokenCode := 10
  const TcLss: TokenCode := 11
  const TcLeq: TokenCode := 12
  const TcGtr: TokenCode := 13
  const TcGeq: TokenCode := 14
  const TcAssign: TokenCode := 15
  const TcSemicolon: TokenCode := 16
  const TcComma: TokenCode := 17
  const TcPeriod: TokenCode := 18
  const TcLpar: TokenCode := 19
  const TcRpar: TokenCode := 20
  const TcLbrack: TokenCode := 21
  const TcRbrack: TokenCode := 22
  const TcLbrace: TokenCode := 23
  const TcRbrace: TokenCode := 24
  const TcClass: TokenCode := 25
  const TcElse: TokenCode := 26
  const TcFinal: TokenCode := 27
  const TcIf: TokenCode := 28
  const TcNew: TokenCode := 29
  const TcPrint: TokenCode := 30
  const TcProgram: TokenCode := 31
  const TcRead: TokenCode := 32
  const TcReturn: TokenCode := 33
  const TcVoid: TokenCode := 34
  const TcWhile: TokenCode := 35
  const TcEOF: TokenCode := 36

  /** The codes that have a declared name. */
  predicate IsCode(k: TokenCode) {
    TcNone <= k <= TcEOF
  }

  /** The reserved-word codes, `class` through `while`. */
  predicate IsKeywordCode(k: TokenCode) {
    TcClass <= k <= TcWhile
  }

  /** The codes the operator table can produce: the single-character
      punctuation codes between `+` and `}`, except `/`, the comparison
      and assignment codes, and `,`. */
  predicate IsOperatorCode(k: TokenCode) {
    k == TcPlus || k == TcMinus || k == TcTimes || k == TcRem
    || k == TcSemicolon || (TcPeriod <= k <= TcRbrace)
  }

  newtype byte = x: int | 0 <= x < 256

  /** One scanned token. */
  datatype Token = Token(
    kind: TokenCode,
    line: int,
    column: int,
    value: int,
    data: string,
    errorMsg: string,
    charValue: byte)
  {
    /** The token is the end-of-stream marker. */
    predicate IsEOF()
      ensures IsEOF() <==> TokenName(kind) == "EOF"
    {
      kind == TcEOF
    }

    /** The token carries an error message, whatever its kind. */
    predicate IsError() {
      errorMsg != ""
    }

    /** The display form of a token: the kind's name, followed by the data
        string for identifiers and numbers only. */
    function String(): (s: string)
      ensures KindPrefix + TokenName(kind) <= s
      ensures |s| >= |KindPrefix| + |TokenName(kind)| + |Suffix|
      ensures s[|s| - |Suffix|..] == Suffix
    {
      if ShowsData(kind) then
        KindPrefix + TokenName(kind) + DataInfix + data + Suffix
      else
        KindPrefix + TokenName(kind) + Suffix
    }
  }

  /** The fixed fragments of the display form. */
  const KindPrefix: string := "<Token: kind='"
  const DataInfix: string := "', data='"
  const Suffix: string := "'>"

  /** The kinds whose display form includes the data string. */
  predicate ShowsData(k: TokenCode) {
    k == TcIdent || k == TcNumber
  }

  /** The name table `TokenNames`, read as `TokenNames[k]`: every declared
      code has its display name, and any other code reads as the empty string,
      the zero value of a missed map read. */
  function TokenName(k: TokenCode): (name: string)
    ensures name != "" <==> IsCode(k)
  {
    match k
    case 0 => "None"              // TcNone
    case 1 => "Identifier"        // TcIdent
    case 2 => "Number"            // TcNumber
    case 3 => "CharacterConstant" // TcCharCon
    case 4 => "+"                 // TcPlus
    case 5 => "-"                 // TcMinus
    case 6 => "*"                 // TcTimes
    case 7 => "/"                 // TcSlash
    case 8 => "%"                 // TcRem
    case 9 => "=="                // TcEql
    case 10 => "!="               // TcNeq
    case 11 => "<"                // TcLss
    case 12 => "<="               // TcLeq
    case 13 => ">"                // TcGtr
    case 14 => ">="               // TcGeq
    case 15 => "="                // TcAssign
    case 16 => ";"                // TcSemicolon
    case 17 => ","                // TcComma
    case 18 => "."                // TcPeriod
    case 19 => "("                // TcLpar
    case 20 => ")"                // TcRpar
    case 21 => "["                // TcLbrack
    case 22 => "]"                // TcRbrack
    case 23 => "{"                // TcLbrace
    case 24 => "}"                // TcRbrace
    case 25 => "class"            // TcClass
    case 26 => "else"             // TcElse
    case 27 => "final"            // TcFinal
    case 28 => "if"               // TcIf
    case 29 => "new"              // TcNew
    case 30 => "print"            // TcPrint
    case 31 => "program"          // TcProgram
    case 32 => "read"             // TcRead
    case 33 => "return"           // TcReturn
    case 34 => "void"             // TcVoid
    case 35 => "while"            // TcWhile
    case 36 => "EOF"              // TcEOF
    case _ => ""
  }

  /** Reserved words and their codes; the match is exact and case-sensitive. */
  const KeywordMap: map<string, TokenCode> := map[
    "class" := TcClass,
    "else" := TcElse,
    "final" := TcFinal,
    "if" := TcIf,
    "new" := TcNew,
    "print" := TcPrint,
    "program" := TcProgram,
    "read" := TcRead,
    "return" := TcReturn,
    "void" := TcVoid,
    "while" := TcWhile
  ]

  /** Operator text and its code. There is no entry for ",", "/", "=",
      "<", ">" or "!", nor for any two-character operator. */
  const OperatorMap: map<string, TokenCode> := map[
    "+" := TcPlus,
    "-" := TcMinus,
    "*" := TcTimes,
    "%" := TcRem,
    ";" := TcSemicolon,
    "." := TcPeriod,
    "(" := TcLpar,
    ")" := TcRpar,
    "[" := TcLbrack,
    "]" := TcRbrack,
    "{" := TcLbrace,
    "}" := TcRbrace
  ]

  /** The code of a reserved word, or the identifier code for any other text.
      A keyword code is returned exactly when the text is the display name of
      that keyword code. */
  function GetKeywordKind(lexeme: string): (kind: TokenCode)
    ensures kind == TcIdent || IsKeywordCode(kind)
    ensures kind != TcIdent ==> TokenName(kind) == lexeme
    ensures kind == TcIdent <==> forall k :: IsKeywordCode(k) ==> TokenName(k) != lexeme
  {
    if lexeme in KeywordMap then KeywordMap[lexeme] else TcIdent
  }

  /** The code of a single-character operator, or the none code for any other
      text. */
  function GetOperatorKind(lexeme: string): (kind: TokenCode)
    ensures kind == TcNone || IsOperatorCode(kind)
    ensures kind != TcNone ==> TokenName(kind) == lexeme
  {
    if lexeme in OperatorMap then OperatorMap[lexeme] else TcNone
  }
}
