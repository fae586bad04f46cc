/** The register values of the commands the SPI monitor knows
  * (src/spimonitor/hardware.rs). */
module SpiMonitorCatalog {
  import opened Bytes
  import opened SpiMonitorCmd

  datatype Fields = Fields(g: bv32, w: bv32, r: bv32, m: bv32, datMode: bv32, dummy: bv32, progSz: bv32,
                           addrLen: bv32, addrMode: bv32) {
    predicate InRange() {
      && g < 2 && w < 2 && r < 2 && m < 2 && datMode < 4 && dummy < 128 && progSz < 8
      && addrLen < 8 && addrMode < 4
    }
  }

  /** How the monitor treats each known command. */
  function CmdFields(cmd: bv8): (f: Option<Fields>)
    ensures f.Some? ==> f.value.InRange() && cmd != 0
  {
    if cmd == 0x03 then Some(Fields(1, 0, 1, 1, 1, 0, 0, 3, 1))
    else if cmd == 0x13 then Some(Fields(1, 0, 1, 1, 1, 0, 0, 4, 1))
    else if cmd == 0x0B then Some(Fields(1, 0, 1, 1, 1, 8, 0, 3, 1))
    else if cmd == 0x0C then Some(Fields(1, 0, 1, 1, 1, 8, 0, 4, 1))
    else if cmd == 0x3B then Some(Fields(1, 0, 1, 1, 2, 8, 0, 3, 1))
    else if cmd == 0x3C then Some(Fields(1, 0, 1, 1, 2, 8, 0, 4, 1))
    else if cmd == 0xBB then Some(Fields(1, 0, 1, 1, 2, 4, 0, 3, 2))
    else if cmd == 0xBC then Some(Fields(1, 0, 1, 1, 2, 4, 0, 4, 2))
    else if cmd == 0x6B then Some(Fields(1, 0, 1, 1, 3, 8, 0, 3, 1))
    else if cmd == 0x6C then Some(Fields(1, 0, 1, 1, 3, 8, 0, 4, 1))
    else if cmd == 0xEB then Some(Fields(1, 0, 1, 1, 3, 6, 0, 3, 3))
    else if cmd == 0xEC then Some(Fields(1, 0, 1, 1, 3, 6, 0, 4, 3))
    else if cmd == 0x02 then Some(Fields(1, 1, 0, 1, 1, 0, 1, 3, 1))
    else if cmd == 0x12 then Some(Fields(1, 1, 0, 1, 1, 0, 1, 4, 1))
    else if cmd == 0x32 then Some(Fields(1, 1, 0, 1, 3, 0, 1, 3, 1))
    else if cmd == 0x34 then Some(Fields(1, 1, 0, 1, 3, 0, 1, 4, 1))
    else if cmd == 0x20 then Some(Fields(1, 1, 0, 1, 0, 0, 1, 3, 1))
    else if cmd == 0x21 then Some(Fields(1, 1, 0, 1, 0, 0, 1, 4, 1))
    else if cmd == 0xD8 then Some(Fields(1, 1, 0, 1, 0, 0, 5, 3, 1))
    else if cmd == 0xDC then Some(Fields(1, 1, 0, 1, 0, 0, 5, 4, 1))
    else if cmd == 0x06 then Some(Fields(1, 0, 0, 0, 0, 0, 0, 0, 0))
    else if cmd == 0x04 then Some(Fields(1, 0, 0, 0, 0, 0, 0, 0, 0))
    else if cmd == 0x05 then Some(Fields(1, 0, 1, 0, 1, 0, 0, 0, 0))
    else if cmd == 0x35 then Some(Fields(1, 0, 1, 0, 1, 0, 0, 0, 0))
    else if cmd == 0x01 then Some(Fields(1, 1, 0, 0, 1, 0, 0, 0, 0))
    else if cmd == 0x31 then Some(Fields(1, 1, 0, 0, 1, 0, 0, 0, 0))
    else if cmd == 0x15 then Some(Fields(1, 0, 1, 0, 1, 0, 0, 0, 0))
    else if cmd == CMD_EN4B then Some(Fields(0, 0, 0, 0, 0, 0, 0, 0, 0))
    else if cmd == CMD_EX4B then Some(Fields(0, 0, 0, 0, 0, 0, 0, 0, 0))
    else if cmd == 0x5A then Some(Fields(1, 0, 1, 0, 1, 8, 0, 3, 1))
    else if cmd == 0x9F then Some(Fields(1, 0, 1, 0, 1, 0, 0, 0, 0))
    else if cmd == 0x70 then Some(Fields(1, 0, 1, 0, 1, 0, 0, 0, 0))
    else if cmd == 0x50 then Some(Fields(1, 0, 0, 0, 0, 0, 0, 0, 0))
    else if cmd == CMD_WREAR then Some(Fields(0, 1, 0, 0, 1, 0, 0, 0, 0))
    else None
  }

  function CmdTableValue(f: Fields, cmd: bv8): bv32 {
    (f.g << 29) | (f.w << 28) | (f.r << 27) | (f.m << 26) | (f.datMode << 24) | (f.dummy << 16)
    | (f.progSz << 13) | (f.addrLen << 10) | (f.addrMode << 8) | cmd as bv32
  }

  /** The fields do not spill into the command, lock or valid bits. */
  lemma FreshValue(f: Fields, cmd: bv8)
    requires f.InRange()
    ensures Fresh(CmdTableValue(f, cmd), cmd)
  {
  }

  function CmdTableVal(cmd: bv8): Option<bv32> {
    match CmdFields(cmd)
    case None => None
    case Some(f) => Some(CmdTableValue(f, cmd))
  }

  /** The register words of the list, as they are written but for the valid bit. */
  function WordOf(cmd: bv8): Option<bv32> {
    if cmd == 0x03 then Some(0x2D00_0D03)
    else if cmd == 0x13 then Some(0x2D00_1113)
    else if cmd == 0x0B then Some(0x2D08_0D0B)
    else if cmd == 0x0C then Some(0x2D08_110C)
    else if cmd == 0x3B then Some(0x2E08_0D3B)
    else if cmd == 0x3C then Some(0x2E08_113C)
    else if cmd == 0xBB then Some(0x2E04_0EBB)
    else if cmd == 0xBC then Some(0x2E04_12BC)
    else if cmd == 0x6B then Some(0x2F08_0D6B)
    else if cmd == 0x6C then Some(0x2F08_116C)
    else if cmd == 0xEB then Some(0x2F06_0FEB)
    else if cmd == 0xEC then Some(0x2F06_13EC)
    else if cmd == 0x02 then Some(0x3500_2D02)
    else if cmd == 0x12 then Some(0x3500_3112)
    else if cmd == 0x32 then Some(0x3700_2D32)
    else if cmd == 0x34 then Some(0x3700_3134)
    else if cmd == 0x20 then Some(0x3400_2D20)
    else if cmd == 0x21 then Some(0x3400_3121)
    else if cmd == 0xD8 then Some(0x3400_ADD8)
    else if cmd == 0xDC then Some(0x3400_B1DC)
    else if cmd == 0x06 then Some(0x2000_0006)
    else if cmd == 0x04 then Some(0x2000_0004)
    else if cmd == 0x05 then Some(0x2900_0005)
    else if cmd == 0x35 then Some(0x2900_0035)
    else if cmd == 0x01 then Some(0x3100_0001)
    else if cmd == 0x31 then Some(0x3100_0031)
    else if cmd == 0x15 then Some(0x2900_0015)
    else if cmd == 0xB7 then Some(0x0000_00B7)
    else if cmd == 0xE9 then Some(0x0000_00E9)
    else if cmd == 0x5A then Some(0x2908_0D5A)
    else if cmd == 0x9F then Some(0x2900_009F)
    else if cmd == 0x70 then Some(0x2900_0070)
    else if cmd == 0x50 then Some(0x2000_0050)
    else if cmd == 0xC5 then Some(0x1100_00C5)
    else None
  }

  /** A word computed from its fields is the one in the list, and no other command has one. */
  lemma KnownWords(cmd: bv8)
    ensures CmdTableVal(cmd) == WordOf(cmd)
  {
  }

  /** The fields of a word. */
  predicate HasFields(w: bv32, f: Fields, cmd: bv8) {
    && (w >> 29) & 1 == f.g && (w >> 28) & 1 == f.w && (w >> 27) & 1 == f.r && (w >> 26) & 1 == f.m
    && (w >> 24) & 3 == f.datMode && (w >> 16) & 0x7F == f.dummy && (w >> 13) & 7 == f.progSz
    && (w >> 10) & 7 == f.addrLen && (w >> 8) & 3 == f.addrMode && w & 0xFF == cmd as bv32
  }

  /** Each field is read back from its own bits of the word written for a command. */
  lemma FieldsWritten(cmd: bv8, f: Fields, w: bv32, flag: bv32)
    requires f.InRange() && IsEnabled(w, CmdTableValue(f, cmd), flag)
    ensures HasFields(w & 0x3FFF_FFFF, f, cmd)
  {
    FreshValue(f, cmd);
    ValueWritten(w, CmdTableValue(f, cmd), flag);
    FieldsOf(f, cmd);
  }

  /** But for the valid bits the word is the value. */
  lemma ValueWritten(w: bv32, v: bv32, flag: bv32)
    requires IsEnabled(w, v, flag) && v & (VALID_BIT | VALID_ONCE_BIT) == 0
    ensures w & 0x3FFF_FFFF == v
  {
    NoValidBits(v);
  }

  lemma NoValidBits(v: bv32)
    requires v & 0xC000_0000 == 0
    ensures v & 0x3FFF_FFFF == v
  {
  }

  lemma FieldsOf(f: Fields, cmd: bv8)
    requires f.InRange()
    ensures HasFields(CmdTableValue(f, cmd), f, cmd)
  {
  }

  /** The monitor's own list is a catalog, so all that is proved of the table applies. */
  lemma Ast1060Catalog()
    ensures IsCatalog(CmdTableVal)
  {
    forall cmd: bv8
      ensures CmdTableVal(cmd).Some? ==> Fresh(CmdTableVal(cmd).value, cmd)
    {
      if CmdFields(cmd).Some? {
        FreshValue(CmdFields(cmd).value, cmd);
      }
    }
  }
}
