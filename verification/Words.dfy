// Machine integers and optional values, shared by all the models.
module Words {

  const WORD: nat := 0x1_0000_0000

  type byte = b: int | 0 <= b < 256

  type u32 = n: nat | n < WORD

  type i32 = n: int | -0x8000_0000 <= n < 0x8000_0000

  datatype Option<T> = None | Some(value: T)
}
