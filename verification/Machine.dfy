/** Fixed-width integers and C strings, as the kernel's C code sees them. */
module Machine {
  type byte = b: int | 0 <= b < 0x100
  type u16 = n: int | 0 <= n < 0x1_0000
  type u32 = n: int | 0 <= n < 0x1_0000_0000

  /** A character of a C string: any byte except the terminating NUL. */
  type Char = c: int | 1 <= c < 0x100 witness 1
  type CString = seq<Char>

  const SPACE: Char := 32
  const NEWLINE: byte := 10

  /** Unsigned 32-bit wrap-around. */
  function Wrap32(n: int): (r: u32) {
    n % 0x1_0000_0000
  }

  function Min(a: int, b: int): int {
    if a <= b then a else b
  }
}
