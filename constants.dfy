/**
 * The generator's configuration: the thermistor, divider and ADC constants
 * and the table length, gathered into one immutable value so that the
 * conversion and the emission can be stated for any hardware.
 */
module Constants {

  datatype Config = Config(
    nominalResistance: real,    // thermistor resistance at the nominal temperature, ohm
    nominalTemperature: real,   // nominal temperature, kelvin
    bConstant: real,            // the thermistor's "B" constant, kelvin
    topResistance: real,        // fixed resistor on top of the voltage divider, ohm
    topVoltage: real,           // voltage on top of the divider, volt
    adcReferenceVoltage: real,  // ADC reference voltage, volt
    adcMax: int,                // largest single ADC reading
    adcAccumulate: int,         // number of samples the ADC sums into one reading
    tableLength: nat)           // entries for 0 .. tableLength - 1 degrees Celsius
  {
    /** Every physical constant is strictly positive, and so are the two ADC integers. */
    predicate Valid() {
      nominalResistance > 0.0 && nominalTemperature > 0.0 && bConstant > 0.0 &&
      topResistance > 0.0 && topVoltage > 0.0 && adcReferenceVoltage > 0.0 &&
      adcMax > 0 && adcAccumulate > 0
    }
  }

  /** The constants the script ships with (NTCG163JH103 thermistor, 10 kOhm top resistor). */
  function Defaults(): (c: Config)
    ensures c.Valid()
    ensures c.adcMax * c.adcAccumulate == 16368 && c.tableLength == 150
  {
    Config(10000.0, 298.15, 3435.0, 10000.0, 3.3, 2.47, 1023, 16, 150)
  }
}
