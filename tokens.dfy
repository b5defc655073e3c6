/** The tokens the lexer hands to the parser. Single-character punctuators keep
    their character, as the source's `int ty` does; every other kind is named. */
module Tokens {

  datatype Kind =
    | Punct(c: char)
    | Number | StrLit | Ident | Eof
    | Arrow | Inc | Dec | LShift | RShift | LessEq | GreaterEq | EqualEq | NotEq | AndAnd | OrOr
    | MulEq | DivEq | ModEq | AddEq | SubEq | ShlEq | ShrEq | AndEq | XorEq | OrEq
    | KwInt | KwChar | KwVoid | KwBool | KwStruct | KwTypeof | KwTypedef | KwExtern
    | KwIf | KwElse | KwFor | KwWhile | KwDo | KwSwitch | KwCase | KwBreak
    | KwContinue | KwReturn | KwSizeof | KwAlignof

  /** The two parentheses, named once. */
  const OpenParen: Kind := Punct('(')
  const CloseParen: Kind := Punct(')')

  /** A token: its kind, the value of a number, the name of an identifier, the bytes
      and length of a string literal. Source positions are left out. */
  datatype Token = Token(kind: Kind, val: int, name: string, str: string, len: int)

  /** The tokens of a translation unit: the lexer always ends them with the
      end-of-input token. */
  type TokenStream = t: seq<Token> | |t| > 0 && t[|t| - 1].kind == Eof
    witness [Token(Eof, 0, "", "", 0)]
}
