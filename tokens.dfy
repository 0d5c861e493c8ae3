/** The eight Brainfuck instructions (src/interpreter/token.rs). They carry no payload. */
module Tokens {

  datatype Token =
    | Left       // `<`
    | Right      // `>`
    | Plus       // `+`
    | Minus      // `-`
    | Output     // `.`
    | Input      // `,`
    | EnterLoop  // `[`
    | ExitLoop   // `]`
}
