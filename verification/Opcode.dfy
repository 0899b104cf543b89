/** The four-bit opcode table of section 5.2 of RFC 6455, and which close codes section 7.4 lets an
    endpoint send. */
module Opcode {
  import opened Bytes

  datatype OpCode = Continuation | Text | Binary | Close | Ping | Pong {

    function ToBits(): byte {
      match this
      case Continuation => 0x0
      case Text => 0x1
      case Binary => 0x2
      case Close => 0x8
      case Ping => 0x9
      case Pong => 0xA
    }

    predicate IsControl() {
      Close? || Ping? || Pong?
    }
  }

  function FromBits(bits: byte): Option<OpCode> {
    match bits
    case 0x0 => Some(Continuation)
    case 0x1 => Some(Text)
    case 0x2 => Some(Binary)
    case 0x8 => Some(Close)
    case 0x9 => Some(Ping)
    case 0xA => Some(Pong)
    case _ => None
  }

  lemma FromToBits(op: OpCode)
    ensures FromBits(op.ToBits()) == Some(op)
  {
  }

  lemma ToFromBits(bits: byte)
    requires FromBits(bits).Some?
    ensures FromBits(bits).value.ToBits() == bits
  {
  }

  type CloseCode = n: nat | n < 0x1_0000

  const INTERNAL_ERROR: CloseCode := 1011

  predicate IsSendable(code: CloseCode) {
    1000 <= code <= 1003 || 1007 <= code <= 1011 || 3000 <= code <= 4999
  }
}
