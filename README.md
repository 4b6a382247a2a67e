# MicroJava token classification

A Dafny model of the token layer of `gomjc`, a scanner for the MicroJava
teaching language written in Go. The model covers `microjava/token.go`:

- the token codes, `tcNone` = 0 through `tcEOF` = 36, declared in order with
  `iota` (module `Tokens`, constants `TcNone` … `TcEOF`). Go's
  `type TokenCode int` is a machine integer; the model widens it to `int`;
- the `Token` record (datatype `Tokens.Token`);
- the name table `TokenNames`, modelled as the function `Tokens.TokenName`
  (a `match` on the code). A code outside 0..36 reads as `""`, which is what a
  missed Go map read returns;
- the keyword table `KeywordMap` and the operator table `OperatorMap`,
  modelled as `map` constants, and the two lookups `GetKeywordKind` and
  `GetOperatorKind`, each a map read with a default (`tcIdent` and `tcNone`);
- the predicates `IsEOF` and `IsError` and the formatter `String`.

Module `TokenProperties` reads the name table backwards (`CodeOfName`) to
show that every declared code has its own name, and proves the round-trips
between the lookups and the name table, the exact set of codes each lookup can return, and that the
display form of a token can be read back: `Parse` splits a display string into
the kind name and the optional data string. `StringRoundTrip` shows that it
inverts `String`, and `ParseSound` that every string it accepts is rebuilt
from what it returns. From that and the injectivity of the name table,
`StringDeterminesKindAndData` follows: for a declared code, the display form
fixes the kind and, for identifiers and numbers, the data string.

The operator table is modelled as written. It has no entry for `","`,
although `tcComma` is declared and named `","`. It also has no entry for
`"/"`, `"="`, `"<"`, `">"` or `"!"`, or for any two-character operator. The
missing `","` looks like an omission, since `,` is one of MicroJava's
single-character punctuation symbols, but the model keeps the code's
behaviour: `GetOperatorKind(",")` is `TcNone` (`OperatorDefaults`,
`UnmappedPunctuation`).

## Model

| member | source | states |
|---|---|---|
| `Tokens.TokenName` | microjava/token.go:61-100 | the name table is defined, with a non-empty name, exactly for the 37 declared codes 0..36; every other code reads as `""` |
| `TokenProperties.CodeOfNameRoundTrip` | microjava/token.go:62-100 | reading a declared code's name back through the reverse table gives the code |
| `TokenProperties.NameOfCodeRoundTrip` | microjava/token.go:62-100 | every code found by the reverse table has the looked-up name |
| `TokenProperties.TokenNameInjective` | microjava/token.go:62-100 | two codes with the same non-empty name are the same code |
| `TokenProperties.TokenNameHasNoQuote` | microjava/token.go:62-100 | no name contains an apostrophe, so a name is delimited inside the display form |
| `Tokens.GetKeywordKind` | microjava/token.go:125-131 | the result is `tcIdent` or a keyword code 25..35; a keyword code is returned only for the text that is that code's name, and `tcIdent` exactly when the text is the name of no keyword code |
| `TokenProperties.KeywordKinds` | microjava/token.go:111-123 | each of the 11 reserved words gives its own code |
| `TokenProperties.KeywordDefaults` | microjava/token.go:126-131 | `""`, `"x"`, `"Class"`, `"WHILE"`, `"iff"` and `"Identifier"` give `tcIdent`: the match is exact and case-sensitive |
| `TokenProperties.KeywordRoundTrip` | microjava/token.go:111-131 | for every keyword code, looking up its name gives the code back |
| `TokenProperties.KeywordNameRoundTrip` | microjava/token.go:111-131 | for every key of the keyword table, the name of its code is the key |
| `TokenProperties.KeywordMapInjective` | microjava/token.go:111-123 | no two reserved words share a code |
| `TokenProperties.KeywordImage` | microjava/token.go:111-123 | the codes in the keyword table are exactly the codes `tcClass` through `tcWhile` |
| `Tokens.GetOperatorKind` | microjava/token.go:149-155 | the result is `tcNone` or an operator code; when it is not `tcNone`, its name is the looked-up text |
| `TokenProperties.OperatorKindIff` | microjava/token.go:134-155 | the lookup succeeds exactly for the one-character texts `+ - * % ; . ( ) [ ] { }` |
| `TokenProperties.OperatorKinds` | microjava/token.go:134-147 | each of the 12 keys gives its own code |
| `TokenProperties.OperatorDefaults` | microjava/token.go:150-155 | `","`, `"/"`, `"="`, `"<"`, `">"` and `"!"` give `tcNone` |
| `TokenProperties.OperatorDefaultsLonger` | microjava/token.go:150-155 | `""`, `"=="`, `"!="`, `"<="`, `">="` and `"++"` give `tcNone` |
| `TokenProperties.OperatorNeverClassifiesWords` | microjava/token.go:134-155 | the operator lookup never gives `tcIdent`, `tcNumber`, `tcCharCon`, a keyword code or `tcEOF` |
| `TokenProperties.OperatorRoundTrip` | microjava/token.go:134-155 | for every operator code, looking up its name gives the code back |
| `TokenProperties.OperatorNameRoundTrip` | microjava/token.go:134-155 | for every key of the operator table, the name of its code is the key |
| `TokenProperties.OperatorImage` | microjava/token.go:134-147 | the codes in the operator table are exactly `+ - * % ; . ( ) [ ] { }`'s codes |
| `TokenProperties.UnmappedPunctuation` | microjava/token.go:134-147 | for `/`, `==`, `!=`, `<`, `<=`, `>`, `>=`, `=` and `,`, looking up the code's own name gives `tcNone` |
| `Tokens.Token.IsEOF` | microjava/token.go:157-160 | a token is the end of stream exactly when its kind's name is `EOF`, i.e. its kind is `tcEOF` |
| `TokenProperties.IsErrorOnlyByMessage` | microjava/token.go:162-165 | `IsError` is the test `errorMsg != ""` of token.go:164; two tokens with the same error message agree on `IsError`, whatever their kind, position or payload |
| `Tokens.Token.String` | microjava/token.go:102-108 | the display form starts with `<Token: kind='` and the kind's name and ends with `'>` |
| `TokenProperties.StringRoundTrip` | microjava/token.go:102-108 | reading the display form back gives the kind's name, and the data string exactly when the kind is `tcIdent` or `tcNumber` |
| `TokenProperties.ParseSound` | microjava/token.go:102-108 | every string the reader accepts is the prefix, the name it reads, and either the bare suffix or the data fragment holding the data it reads; with `StringRoundTrip` this fixes the output of `String` exactly |
| `TokenProperties.StringDeterminesKindAndData` | microjava/token.go:62-108 | for a declared code, two tokens with the same display form have the same kind and, for identifiers and numbers, the same data |
| `TokenProperties.EOFString` | microjava/token.go:99-107 | every end-of-stream token displays as `<Token: kind='EOF'>` |

## Left out

- `microjava/scanner.go`: the scanner is a stub whose `NextToken` returns a fresh `tcPlus` token and whose constructor stores the reader and sets the line to 1. The multi-character state machine (whitespace, comments, character literals, numbers, two-character operators) is not in the code, so it is not modelled.
- `main.go`: command-line handling, file I/O and printing; no logic beyond driving the scanner.
- `microjava/tokens.go`: an older copy of the code enumeration, the token record and the keyword table, with no functions.
- `microjava/obj.go`: a symbol-table record whose field type is not defined in the code; it has only a field-copying constructor.
- `fmt.Sprintf` formatting in `String`: `%v` on strings is modelled as plain concatenation of the fixed fragments, the name and the data string; the formatting machinery itself is not modelled.
- The `Line`, `Column` and `Value` fields are Go `int`s, modelled as unbounded `int`; nothing in the core does arithmetic on them.
- `TokenNames`, `KeywordMap` and `OperatorMap` are package-level variables in Go. Nothing writes to them, so they are modelled as constants. A write from another package is not modelled.
- `IsEOF` and `IsError` take a pointer receiver; the model takes the token by value, since neither reads through an alias or changes the token. A nil `*Token`, on which both panic in Go, has no counterpart in the model.
- `TokenCode` is a Go `int`, a fixed-width machine integer; the model widens it to unbounded `int`. Every code outside 0..36 has the name `""` and no lookup returns one, so the widening changes no result.
- Go strings are byte sequences; the model uses Dafny `string`, a sequence of characters. A lexeme or `Data` holding invalid UTF-8 cannot be represented, and `OperatorKindIff`'s `|op| == 1` counts characters where Go counts bytes. All keys of the tables are ASCII, so on them bytes and characters coincide.
