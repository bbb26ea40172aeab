/** The NS8250 (16550-compatible) serial port driver (term/ns8250.c): the
    speed-to-divisor table, the validation of a requested configuration, and
    the one-time programming of the UART, whose port writes are recorded as a
    trace of (I/O address, byte) pairs. */
module Ns8250 {
  import opened Wrappers

  // Register offsets and register bits of the 8250/16550 UART, with the
  // values GRUB's include/grub/ns8250.h gives them (that header is not part
  // of this model).
  const UART_DLL: nat := 0
  const UART_IER: nat := 1
  const UART_DLH: nat := 1
  const UART_FCR: nat := 2
  const UART_LCR: nat := 3
  const UART_MCR: nat := 4
  const UART_DLAB: bv8 := 0x80
  const UART_NO_PARITY: bv8 := 0x00
  const UART_ODD_PARITY: bv8 := 0x08
  const UART_EVEN_PARITY: bv8 := 0x18
  const UART_1_STOP_BIT: bv8 := 0x00
  const UART_2_STOP_BITS: bv8 := 0x04
  const UART_ENABLE_FIFO_TRIGGER1: bv8 := 0x07
  const UART_ENABLE_DTRRTS: bv8 := 0x03

  // The enumerations of include/grub/serial.h (not part of this model).
  const PARITY_NONE: int := 0
  const PARITY_ODD: int := 1
  const PARITY_EVEN: int := 2
  const STOP_BITS_1: int := 0
  const STOP_BITS_2: int := 1

  /** struct grub_serial_config */
  datatype SerialConfig = SerialConfig(speed: nat, wordLen: nat, parity: int, stopBits: int)

  datatype SerialError = BadArgument(message: string)

  /** One grub_outb: a byte written to an I/O address. */
  datatype PortWrite = PortWrite(address: nat, value: bv8)

  /** The speeds the driver knows; for them the clock of 1843200 Hz divided
      by sixteen times the speed is a whole number. */
  predicate StandardSpeed(speed: nat) {
    speed == 2400 || speed == 4800 || speed == 9600 || speed == 19200 ||
    speed == 38400 || speed == 57600 || speed == 115200
  }

  /** divisor_tab: speed and divisor, in the order the driver searches it. */
  const DivisorTable: seq<(nat, bv16)> := [
    (2400, 0x0030), (4800, 0x0018), (9600, 0x000C), (19200, 0x0006),
    (38400, 0x0003), (57600, 0x0002), (115200, 0x0001)]

  /** serial_get_divisor: the table's divisor for a listed speed, which is
      1843200 / (speed * 16), and 0 for any other speed. */
  method SerialGetDivisor(speed: nat) returns (divisor: bv16)
    ensures StandardSpeed(speed) ==> divisor as int == 1843200 / (speed * 16) && divisor != 0
    ensures !StandardSpeed(speed) ==> divisor == 0
  {
    for i := 0 to |DivisorTable|
      invariant forall j :: 0 <= j < i ==> DivisorTable[j].0 != speed
    {
      if DivisorTable[i].0 == speed {
        return DivisorTable[i].1;
      }
    }
    assert !StandardSpeed(speed) by {
      assert DivisorTable[0].0 != speed && DivisorTable[1].0 != speed && DivisorTable[2].0 != speed;
      assert DivisorTable[3].0 != speed && DivisorTable[4].0 != speed && DivisorTable[5].0 != speed;
      assert DivisorTable[6].0 != speed;
    }
    return 0;
  }

  /** The parities[] table of do_real_config. */
  function ParityBits(parity: int): bv8
    requires SupportedParity(parity)
  {
    if parity == PARITY_NONE then UART_NO_PARITY
    else if parity == PARITY_ODD then UART_ODD_PARITY
    else UART_EVEN_PARITY
  }

  /** The stop_bits[] table of do_real_config. */
  function StopBitsBits(stopBits: int): bv8
    requires SupportedStopBits(stopBits)
  {
    if stopBits == STOP_BITS_1 then UART_1_STOP_BIT else UART_2_STOP_BITS
  }

  predicate SupportedParity(parity: int) {
    parity == PARITY_NONE || parity == PARITY_ODD || parity == PARITY_EVEN
  }

  predicate SupportedStopBits(stopBits: int) {
    stopBits == STOP_BITS_1 || stopBits == STOP_BITS_2
  }

  predicate Supported(config: SerialConfig) {
    SupportedParity(config.parity) && SupportedStopBits(config.stopBits)
  }

  /** The line-control byte: parity bits, word length and stop bits OR'd
      together into an unsigned char. */
  function LineControl(config: SerialConfig): bv8
    requires Supported(config)
  {
    ParityBits(config.parity) | (config.wordLen % 256) as bv8 | StopBitsBits(config.stopBits)
  }

  /** Reading the fields back out of a line-control byte. */
  function DecodeWordLen(lcr: bv8): nat { (lcr & 0x03) as nat }

  function DecodeParity(lcr: bv8): int {
    if lcr & 0x18 == UART_EVEN_PARITY then PARITY_EVEN
    else if lcr & 0x18 == UART_ODD_PARITY then PARITY_ODD
    else PARITY_NONE
  }

  function DecodeStopBits(lcr: bv8): int {
    if lcr & 0x04 == UART_2_STOP_BITS then STOP_BITS_2 else STOP_BITS_1
  }

  /** The three fields occupy disjoint bits of the line-control byte, so a
      word-length code of 0..3 (five to eight data bits), the parity and the
      stop bits can all be read back from it. */
  lemma LineControlDecodes(config: SerialConfig)
    requires Supported(config) && config.wordLen < 4
    ensures DecodeWordLen(LineControl(config)) == config.wordLen
    ensures DecodeParity(LineControl(config)) == config.parity
    ensures DecodeStopBits(LineControl(config)) == config.stopBits
  {
    var w := (config.wordLen % 256) as bv8;
    assert w & 0x03 == w && w & 0x18 == 0 && w & 0x04 == 0 by {
      assert config.wordLen == 0 || config.wordLen == 1 || config.wordLen == 2 || config.wordLen == 3;
    }
    var lcr := LineControl(config);
    var p := ParityBits(config.parity);
    var s := StopBitsBits(config.stopBits);
    assert lcr == p | w | s;
    assert lcr & 0x03 == w;
    assert lcr & 0x18 == p;
    assert lcr & 0x04 == s;
  }

  /** The divisor latch bytes: the low byte for DLL, the high byte for DLH. */
  function DivisorLow(divisor: bv16): bv8 { (divisor & 0xFF) as bv8 }
  function DivisorHigh(divisor: bv16): bv8 { (divisor >> 8) as bv8 }

  /** The two latch bytes together give back the divisor. */
  lemma DivisorBytesRoundTrip(divisor: bv16)
    ensures ((DivisorHigh(divisor) as bv16) << 8) | DivisorLow(divisor) as bv16 == divisor
  {
  }

  /** The writes do_real_config makes to a UART at I/O base `base`. */
  function ConfigWrites(base: nat, config: SerialConfig, divisor: bv16): seq<PortWrite>
    requires Supported(config)
  {
    [PortWrite(base + UART_IER, 0),
     PortWrite(base + UART_LCR, UART_DLAB),
     PortWrite(base + UART_DLL, DivisorLow(divisor)),
     PortWrite(base + UART_DLH, DivisorHigh(divisor)),
     PortWrite(base + UART_LCR, LineControl(config)),
     PortWrite(base + UART_FCR, UART_ENABLE_FIFO_TRIGGER1),
     PortWrite(base + UART_MCR, UART_ENABLE_DTRRTS)]
  }

  /** The baud rate the UART runs at after the trace: the divisor goes to the
      latch while DLAB is set, and the line control then clears DLAB. */
  lemma ConfigWritesProgramDivisor(base: nat, config: SerialConfig)
    requires Supported(config) && config.wordLen < 4
    ensures forall divisor: bv16 :: var w := ConfigWrites(base, config, divisor);
      w[1].value & UART_DLAB == UART_DLAB &&
      ((w[3].value as bv16) << 8) | w[2].value as bv16 == divisor &&
      w[4].value & UART_DLAB == 0
  {
    var lcr := LineControl(config);
    var wl := (config.wordLen % 256) as bv8;
    assert wl & 0x80 == 0 by {
      assert config.wordLen == 0 || config.wordLen == 1 || config.wordLen == 2 || config.wordLen == 3;
    }
    assert lcr & 0x80 == (ParityBits(config.parity) & 0x80) | (wl & 0x80) | (StopBitsBits(config.stopBits) & 0x80);
    forall divisor: bv16 { DivisorBytesRoundTrip(divisor); }
  }

  /** struct grub_serial_port: the configuration, the configured latch and
      the writes the driver has made to the UART. */
  class SerialPort {
    const base: nat
    var config: SerialConfig
    var configured: bool
    var writes: seq<PortWrite>

    constructor (base: nat, config: SerialConfig)
      ensures this.base == base && this.config == config
      ensures !configured && writes == []
    {
      this.base := base;
      this.config := config;
      configured := false;
      writes := [];
    }

    /** serial_hw_configure: speed is checked first, then parity, then stop
        bits; an accepted configuration is stored and clears the latch, and
        a rejected one leaves the port as it was. */
    method Configure(requested: SerialConfig) returns (err: Option<SerialError>)
      modifies this
      ensures !StandardSpeed(requested.speed) ==> err == Some(BadArgument("bad speed"))
      ensures (StandardSpeed(requested.speed) && !SupportedParity(requested.parity)) ==>
        err == Some(BadArgument("unsupported parity"))
      ensures (StandardSpeed(requested.speed) && SupportedParity(requested.parity) &&
               !SupportedStopBits(requested.stopBits)) ==>
        err == Some(BadArgument("unsupported stop bits"))
      ensures err == None <==> StandardSpeed(requested.speed) && Supported(requested)
      ensures err != None ==> config == old(config) && configured == old(configured)
      ensures err == None ==> config == requested && !configured
      ensures writes == old(writes)
    {
      var divisor := SerialGetDivisor(requested.speed);
      if divisor == 0 {
        return Some(BadArgument("bad speed"));
      }
      if requested.parity != PARITY_NONE && requested.parity != PARITY_ODD && requested.parity != PARITY_EVEN {
        return Some(BadArgument("unsupported parity"));
      }
      if requested.stopBits != STOP_BITS_1 && requested.stopBits != STOP_BITS_2 {
        return Some(BadArgument("unsupported stop bits"));
      }
      config := requested;
      configured := false;
      return None;
    }

    /** do_real_config: programs the UART once; while the latch is set it
        does nothing, so a second call writes nothing. The parity and stop
        bits index C arrays, so they must be among the supported values. */
    method DoRealConfig()
      requires Supported(config)
      modifies this
      ensures configured
      ensures config == old(config)
      ensures old(configured) ==> writes == old(writes)
      ensures !old(configured) ==> (exists divisor: bv16 ::
        (StandardSpeed(config.speed) ==> divisor as int == 1843200 / (config.speed * 16)) &&
        (!StandardSpeed(config.speed) ==> divisor == 0) &&
        writes == old(writes) + ConfigWrites(base, config, divisor))
    {
      if configured {
        return;
      }
      var divisor := SerialGetDivisor(config.speed);
      writes := writes + [PortWrite(base + UART_IER, 0)];
      writes := writes + [PortWrite(base + UART_LCR, UART_DLAB)];
      writes := writes + [PortWrite(base + UART_DLL, DivisorLow(divisor))];
      writes := writes + [PortWrite(base + UART_DLH, DivisorHigh(divisor))];
      var status: bv8 := 0;
      status := status | (ParityBits(config.parity) | (config.wordLen % 256) as bv8 | StopBitsBits(config.stopBits));
      writes := writes + [PortWrite(base + UART_LCR, status)];
      writes := writes + [PortWrite(base + UART_FCR, UART_ENABLE_FIFO_TRIGGER1)];
      writes := writes + [PortWrite(base + UART_MCR, UART_ENABLE_DTRRTS)];
      configured := true;
      assert writes == old(writes) + ConfigWrites(base, config, divisor);
    }
  }

  /** An entry of com_ports[] with its com_names[] entry; slots the BIOS
      reported no port for keep port 0 and an empty name. */
  datatype ComPort = ComPort(port: nat, name: string)

  /** The search of grub_serial_ns8250_add_port over the built-in ports:
      the first slot whose port matches. */
  method FindComPort(comPorts: seq<ComPort>, port: nat) returns (slot: Option<nat>)
    ensures slot.Some? ==> (slot.value < |comPorts| && comPorts[slot.value].port == port &&
      forall j :: 0 <= j < slot.value ==> comPorts[j].port != port)
    ensures slot.None? ==> forall j :: 0 <= j < |comPorts| ==> comPorts[j].port != port
  {
    for i := 0 to |comPorts|
      invariant forall j :: 0 <= j < i ==> comPorts[j].port != port
    {
      if comPorts[i].port == port {
        return Some(i);
      }
    }
    return None;
  }

  /** grub_serial_ns8250_add_port: a port that a built-in slot already has
      gives back that slot's name and calls no allocator; otherwise
      grub_malloc is called, and the result is the new port's name, or null
      when grub_malloc fails (`mallocOk` is false) or the name cannot be
      formatted (`formatted` is None), in which case the block is freed
      again. `registered` says the new port stays allocated and registered. */
  method AddPort(comPorts: seq<ComPort>, port: nat, mallocOk: bool, formatted: Option<string>)
    returns (name: Option<string>, mallocCalled: bool, registered: bool)
    ensures (exists j :: 0 <= j < |comPorts| && comPorts[j].port == port) ==>
      (!mallocCalled && !registered &&
       exists j :: (0 <= j < |comPorts| && comPorts[j].port == port &&
                    name == Some(comPorts[j].name) && forall k :: 0 <= k < j ==> comPorts[k].port != port))
    ensures (forall j :: 0 <= j < |comPorts| ==> comPorts[j].port != port) ==>
      mallocCalled && (registered <==> mallocOk && formatted.Some?) &&
      name == (if registered then formatted else None)
  {
    var slot := FindComPort(comPorts, port);
    if slot.Some? {
      return Some(comPorts[slot.value].name), false, false;
    }
    mallocCalled := true;
    if !mallocOk {
      return None, mallocCalled, false;
    }
    if formatted.None? {
      // the block is given back with grub_free
      return None, mallocCalled, false;
    }
    return formatted, mallocCalled, true;
  }
}
