/** The protocol constants of consts.go: capability flags, command codes, column types and
    column flags, with the bit arithmetic used to test and combine them.  The native package
    uses the same column-type numbering under MYSQL_TYPE_* names. */
module Consts {

  // ---------------------------------------------------------------- capability flags

  const ClientLongPassword: nat := 0x1
  const ClientFoundRows: nat := 0x2
  const ClientLongFlag: nat := 0x4
  const ClientConnectWithDb: nat := 0x8
  const ClientNoSchema: nat := 0x10
  const ClientCompress: nat := 0x20
  const ClientOdbc: nat := 0x40
  const ClientLocalFiles: nat := 0x80
  const ClientIgnoreSpace: nat := 0x100
  const ClientProtocol41: nat := 0x200
  const ClientInteractive: nat := 0x400
  const ClientSsl: nat := 0x800
  const ClientIgnoreSigpipe: nat := 0x1000
  const ClientTransactions: nat := 0x2000
  const ClientReserved: nat := 0x4000
  const ClientSecureConn: nat := 0x8000
  const ClientMultiStatements: nat := 0x1_0000
  const ClientMultiResults: nat := 0x2_0000

  // ---------------------------------------------------------------- command codes

  const ComQuit: nat := 0x01
  const ComInitDb: nat := 0x02
  const ComQuery: nat := 0x03
  const ComFieldList: nat := 0x04
  const ComCreateDb: nat := 0x05
  const ComDropDb: nat := 0x06
  const ComRefresh: nat := 0x07
  const ComShutdown: nat := 0x08
  const ComStatistics: nat := 0x09
  const ComProcessInfo: nat := 0x0a
  const ComConnect: nat := 0x0b
  const ComProcessKill: nat := 0x0c
  const ComDebug: nat := 0x0d
  const ComPing: nat := 0x0e
  const ComTime: nat := 0x0f
  const ComDelayedInsert: nat := 0x10
  const ComChangeUser: nat := 0x11
  const ComBinlogDump: nat := 0x12
  const ComTableDump: nat := 0x13
  const ComConnectOut: nat := 0x14
  const ComRegisterSlave: nat := 0x15
  const ComStmtPrepare: nat := 0x16
  const ComStmtExecute: nat := 0x17
  const ComStmtSendLongData: nat := 0x18
  const ComStmtClose: nat := 0x19
  const ComStmtReset: nat := 0x1a
  const ComSetOption: nat := 0x1b
  const ComStmtFetch: nat := 0x1c

  // ---------------------------------------------------------------- column types

  const TypeDecimal: nat := 0x00
  const TypeTiny: nat := 0x01
  const TypeShort: nat := 0x02
  const TypeLong: nat := 0x03
  const TypeFloat: nat := 0x04
  const TypeDouble: nat := 0x05
  const TypeNull: nat := 0x06
  const TypeTimestamp: nat := 0x07
  const TypeLonglong: nat := 0x08
  const TypeInt24: nat := 0x09
  const TypeDate: nat := 0x0a
  const TypeTime: nat := 0x0b
  const TypeDatetime: nat := 0x0c
  const TypeYear: nat := 0x0d
  const TypeNewdate: nat := 0x0e
  const TypeVarchar: nat := 0x0f
  const TypeBit: nat := 0x10
  const TypeNewdecimal: nat := 0xf6
  const TypeEnum: nat := 0xf7
  const TypeSet: nat := 0xf8
  const TypeTinyBlob: nat := 0xf9
  const TypeMediumBlob: nat := 0xfa
  const TypeLongBlob: nat := 0xfb
  const TypeBlob: nat := 0xfc
  const TypeVarString: nat := 0xfd
  const TypeString: nat := 0xfe
  const TypeGeometry: nat := 0xff

  /** The bit a bound parameter's type carries when the value is unsigned. */
  const UnsignedMask: nat := 0x8000

  // ---------------------------------------------------------------- column flags

  const FlagNotNull: nat := 0x1
  const FlagUnsigned: nat := 0x20      // FLAG_UNSIGNED = 1 << 5
  const FlagBinary: nat := 0x80

  // ---------------------------------------------------------------- bits

  function Pow2(k: nat): (p: nat)
    ensures p >= 1
  {
    if k == 0 then 1 else 2 * Pow2(k - 1)
  }

  /** x & (1 << k) != 0 */
  predicate HasBit(x: nat, k: nat)
  {
    (x / Pow2(k)) % 2 == 1
  }
}
