/** Machine integers and the result types shared by every part of the model. */
module Basics {

  type byte = x: int | 0 <= x < 0x100
  type u32 = x: int | 0 <= x < 0x1_0000_0000
  type u64 = x: int | 0 <= x < 0x1_0000_0000_0000_0000
  type i32 = x: int | -0x8000_0000 <= x < 0x8000_0000

  datatype Option<+T> = None | Some(value: T)

  /** u32 wrapping arithmetic: the residue modulo 2^32. */
  function Wrap32(x: int): (r: u32) {
    x % 0x1_0000_0000
  }

  /** Checked u32 addition, as compiled with overflow-checks: no value means a panic. */
  function CheckedAdd32(a: u32, b: u32): (r: Option<u32>) {
    if a + b < 0x1_0000_0000 then Some(a + b) else None
  }

  lemma Associative<T>(a: seq<T>, b: seq<T>, c: seq<T>)
    ensures a + b + c == a + (b + c)
  {
  }

  predicate IsSuffix<T(==)>(t: seq<T>, s: seq<T>) {
    |t| <= |s| && s[|s| - |t|..] == t
  }

  lemma SuffixOfSelf<T>(s: seq<T>)
    ensures IsSuffix(s, s)
  {
  }

  lemma SuffixOfSuffix<T>(u: seq<T>, t: seq<T>, s: seq<T>)
    requires IsSuffix(u, t) && IsSuffix(t, s)
    ensures IsSuffix(u, s)
  {
    assert s[|s| - |u|..] == s[|s| - |t|..][|t| - |u|..];
  }

  /** Everything that can go wrong in one bus operation. */
  datatype MdbError =
    | GpioError(rc: int)
    | Overflow
    | SendTimeout(wave: WaveRole)
    | RecvTimeout
    | MdbNak
    | MdbInvalidResponse(b: byte)
    | MdbChecksum(computed: byte, received: byte, response: seq<byte>)

  datatype WaveRole = RequestWave | AckWave | NakWave

  /** How a call ends. `Panic` is a failed assertion or checked addition. `Unending` is a
      polling loop cut off after an arbitrary finite number of polls. */
  datatype Outcome<+T> = Ok(value: T) | Err(error: MdbError) | Panic | Unending {
    predicate IsFailure() {
      !Ok?
    }

    function PropagateFailure<U>(): Outcome<U>
      requires IsFailure()
    {
      match this
      case Err(e) => Err(e)
      case Panic => Panic
      case Unending => Unending
    }

    function Extract(): T
      requires Ok?
    {
      value
    }
  }
}
