/** The pulse counter: two debounced inputs, litres that wrap, and an edge carried across a reset. */
module Counter {
  import opened Bytes
  import opened Flash
  import opened ConfigStore
  import opened ConfigSteps

  const DEBOUNCE_COUNTER: nat := 32
  const COUNTERS_OVERFLOW: nat := 100000000

  /** water_counter_t: pulses not yet added up, and the debounce walk between 1 and 32. */
  datatype Input = Input(counter: u8, debounce: u8)

  predicate Sound(i: Input)
  {
    1 <= i.debounce <= DEBOUNCE_COUNTER && i.counter <= 1 && (i.counter == 1 ==> i.debounce == DEBOUNCE_COUNTER)
  }

  /** check_counter_overflow, on 32-bit sums. */
  method CheckCounterOverflow(checkCount: u32) returns (count: u32)
    ensures count == Overflowed(checkCount)
  {
    if checkCount >= COUNTERS_OVERFLOW {
      count := checkCount - COUNTERS_OVERFLOW;
    } else {
      count := checkCount;
    }
  }

  function Overflowed(n: u32): (r: u32)
    ensures r % 100000000 == n % 100000000
    ensures r < COUNTERS_OVERFLOW <==> n < 2 * COUNTERS_OVERFLOW
    ensures r <= 4194967295
  {
    if n >= COUNTERS_OVERFLOW then n - COUNTERS_OVERFLOW else n
  }

  // ----- one input -----

  /** One poll of a pin. */
  function Polled(i: Input, low: bool): (r: Input)
    requires Sound(i)
    ensures 1 <= r.debounce <= DEBOUNCE_COUNTER && i.counter <= r.counter <= 1
    ensures r.counter > i.counter <==> low && i.debounce == 31
  {
    if low then
      if i.debounce != DEBOUNCE_COUNTER then
        Input(if i.debounce + 1 == DEBOUNCE_COUNTER then i.counter + 1 else i.counter, i.debounce + 1)
      else i
    else if i.debounce != 1 then i.(debounce := i.debounce - 1)
    else i
  }

  /** Litres after adding up the pulses of an input. */
  function Added(litres: u32, step: u8, pulses: u8): u32
  {
    if pulses == 0 then litres else Overflowed((litres + step * pulses) % 0x1_0000_0000)
  }

  /** An input after a restart: low counts as already pressed, and as a new pulse if a flagged register says
      that it was high before. */
  function Restarted(low: bool, flagged: bool, wasHigh: bool): (r: Input)
    ensures Sound(r)
    ensures r.counter == 1 <==> flagged && wasHigh && low
  {
    if low then Input(if flagged && wasHigh then 1 else 0, DEBOUNCE_COUNTER) else Input(0, 1)
  }

  // ----- the meter -----

  /** The two inputs, the register that survives a reset, and the configuration store with the litres. */
  datatype Meter = Meter(hot: Input, cold: Input, reg: bv8, store: Store)

  /** liters_per_pulse in force. */
  function StepOf(s: Store): u8 { ByteValue(s.ram.litersPerPulse) }

  function Counted(s: Store, hotPulses: u8, coldPulses: u8): Store
  {
    s.(ram := s.ram.(hot := Added(s.ram.hot, StepOf(s), hotPulses), cold := Added(s.ram.cold, StepOf(s), coldPulses)))
  }

  function AfterPoll(m: Meter, hotLow: bool, coldLow: bool): Meter
    requires Sound(m.hot) && Sound(m.cold)
  {
    var hot, cold := Polled(m.hot, hotLow), Polled(m.cold, coldLow);
    Meter(hot.(counter := 0), cold.(counter := 0), m.reg,
          if hot.counter != 0 || cold.counter != 0 then Written(Counted(m.store, hot.counter, cold.counter))
          else m.store)
  }

  function AfterSleep(m: Meter, hotHigh: bool, coldHigh: bool): Meter
  {
    m.(reg := 4 | (if hotHigh then 1 else 0) | (if coldHigh then 2 else 0))
  }

  function CountersStarted(m: Meter, hotLow: bool, coldLow: bool): Meter
  {
    var flagged := m.reg & 4 != 0;
    m.(hot := Restarted(hotLow, flagged, m.reg & 1 != 0), cold := Restarted(coldLow, flagged, m.reg & 2 != 0), reg := 0)
  }

  /** A restart looks for the configuration in flash, then reads the pins and the retained register. */
  function AfterRestart(m: Meter, hotLow: bool, coldLow: bool): Meter
    requires |m.store.cells| == FLASH_SIZE
  {
    CountersStarted(m.(store := Initialised(PowerCycled(m.store))), hotLow, coldLow)
  }

  function StepFrom(w: u16): (r: u8)
    ensures 1 <= r <= 100 && (r == 1 || r % 10 == 0)
    ensures 10 <= w <= 100 ==> w - 10 < r <= w
    ensures (w < 10 ==> r == 1) && (w > 100 ==> r == 100)
  {
    var t := w / 10 * 10;
    if t == 0 then 1 else if t > 100 then 100 else t
  }

  /** A preset is rounded down to whole pulses. */
  function PresetTo(value: u32, step: u8): (r: u32)
    requires step > 0
    ensures r % 100000000 == (value - value % step) % 100000000
    ensures r < COUNTERS_OVERFLOW <==> value - value % step < 2 * COUNTERS_OVERFLOW
    ensures r <= 4194967295
  {
    WholePulses(value, step);
    Overflowed(value / step * step)
  }

  lemma WholePulses(value: nat, step: nat)
    requires step > 0
    ensures 0 <= value / step * step == value - value % step <= value
  {
    assert value == value / step * step + value % step;
  }

  class WaterMeter {
    const device: Device
    var hotCounter: Input
    var coldCounter: Input
    var chkDeepSleep: bv8

    ghost function View(): Meter
      reads this, device, device.chip
    {
      Meter(hotCounter, coldCounter, chkDeepSleep, device.State())
    }

    constructor (device: Device, chkDeepSleep: bv8)
      ensures this.device == device && View() == Meter(Input(0, 1), Input(0, 1), chkDeepSleep, device.State())
    {
      this.device := device;
      hotCounter, coldCounter, this.chkDeepSleep := Input(0, 1), Input(0, 1), chkDeepSleep;
    }

    /** init_counters, with the levels it reads from the pins. */
    method InitCounters(hotHigh: bool, coldHigh: bool)
      modifies this
      ensures View() == CountersStarted(old(View()), !hotHigh, !coldHigh)
    {
      var regDeepSleep := chkDeepSleep;
      hotCounter := hotCounter.(counter := 0);
      coldCounter := coldCounter.(counter := 0);
      if regDeepSleep & 4 != 0 {
        if !hotHigh {
          hotCounter := hotCounter.(debounce := DEBOUNCE_COUNTER);
          if regDeepSleep & 1 != 0 {
            hotCounter := hotCounter.(counter := hotCounter.counter + 1);
          }
        } else {
          hotCounter := hotCounter.(debounce := 1);
        }
        if !coldHigh {
          coldCounter := coldCounter.(debounce := DEBOUNCE_COUNTER);
          if regDeepSleep & 2 != 0 {
            coldCounter := coldCounter.(counter := coldCounter.counter + 1);
          }
        } else {
          coldCounter := coldCounter.(debounce := 1);
        }
      } else {
        hotCounter := hotCounter.(debounce := if !hotHigh then DEBOUNCE_COUNTER else 1);
        coldCounter := coldCounter.(debounce := if !coldHigh then DEBOUNCE_COUNTER else 1);
      }
      chkDeepSleep := 0;
    }

    /** The part of the start-up that restores the meter: init_config, then init_counters. */
    method UserInit(hotHigh: bool, coldHigh: bool)
      requires |device.chip.cells| == FLASH_SIZE
      modifies this, device, device.chip
      ensures View() == CountersStarted(old(View()).(store := Initialised(old(device.State()))), !hotHigh, !coldHigh)
    {
      hide Initialised, Restarted;
      device.InitConfig();
      InitCounters(hotHigh, coldHigh);
    }

    /** counters_handler */
    method CountersHandler(hotHigh: bool, coldHigh: bool) returns (saveConfig: bool)
      requires Sound(hotCounter) && Sound(coldCounter) && device.Ready()
      modifies this, device, device.chip
      ensures View() == AfterPoll(old(View()), !hotHigh, !coldHigh)
      ensures Sound(hotCounter) && Sound(coldCounter) && device.Ready()
      ensures saveConfig <==>
                Polled(old(hotCounter), !hotHigh).counter > 0 || Polled(old(coldCounter), !coldHigh).counter > 0
    {
      hide ByteValue, Written, Overflowed;
      hotCounter := Debounce(hotCounter, hotHigh);
      coldCounter := Debounce(coldCounter, coldHigh);
      saveConfig := AddPulses(hotCounter.counter, coldCounter.counter);
      hotCounter := hotCounter.(counter := 0);
      coldCounter := coldCounter.(counter := 0);
      if saveConfig {
        device.WriteConfig(Enough);
      }
    }

    /** The two additions of counters_handler. */
    method AddPulses(hotPulses: u8, coldPulses: u8) returns (saveConfig: bool)
      modifies device`watermeterConfig
      ensures device.State() == Counted(old(device.State()), hotPulses, coldPulses)
      ensures saveConfig <==> hotPulses != 0 || coldPulses != 0
    {
      hide ByteValue, Overflowed;
      saveConfig := false;
      var litersPerPulse := ByteValue(device.watermeterConfig.litersPerPulse);
      if hotPulses != 0 {
        saveConfig := true;
        var count :=
          CheckCounterOverflow((device.watermeterConfig.hot + litersPerPulse * hotPulses) % 0x1_0000_0000);
        device.watermeterConfig := device.watermeterConfig.(hot := count);
      }
      if coldPulses != 0 {
        saveConfig := true;
        var count :=
          CheckCounterOverflow((device.watermeterConfig.cold + litersPerPulse * coldPulses) % 0x1_0000_0000);
        device.watermeterConfig := device.watermeterConfig.(cold := count);
      }
    }

    /** set_regDeepSleep */
    method SetRegDeepSleep(hotHigh: bool, coldHigh: bool)
      modifies this`chkDeepSleep
      ensures View() == AfterSleep(old(View()), hotHigh, coldHigh)
    {
      var regDeepSleep: bv8 := 4;
      if hotHigh {
        regDeepSleep := regDeepSleep | 1;
      }
      if coldHigh {
        regDeepSleep := regDeepSleep | 2;
      }
      chkDeepSleep := regDeepSleep;
    }
  }

  /** The debounce branches of counters_handler for one pin. */
  method Debounce(i: Input, high: bool) returns (r: Input)
    requires Sound(i)
    ensures r == Polled(i, !high)
  {
    r := i;
    if !high {
      if r.debounce != DEBOUNCE_COUNTER {
        r := r.(debounce := r.debounce + 1);
        if r.debounce == DEBOUNCE_COUNTER {
          r := r.(counter := r.counter + 1);
        }
      }
    } else {
      if r.debounce != 1 {
        r := r.(debounce := r.debounce - 1);
      }
    }
  }
}
