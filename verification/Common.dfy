/** Values shared by every part of the log. */
module Common {

  type Byte = b: nat | b < 256
  type Block = seq<Byte>

  datatype Option<+T> = None | Some(value: T)

  /**
   The errors an operation can return. `Panic` is an out-of-range access in the program,
   `Hang` a loop that never ends.
   */
  datatype Error = InvalidOperation | InvalidChecksum | InvalidSignature | BadArgument | NotWritable
                 | EmptyStorage | InvalidEncoding | Panic | Hang

  datatype Result<+T> = Ok(value: T) | Err(error: Error)
}
