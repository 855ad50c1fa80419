/** The closed table of NewScale manipulator serial numbers: which probe each one
    carries and whether its z-axis is a short-travel (6000) or long-travel (15000) axis. */
module Registry {
  import opened Outcomes

  /** Serial number to probe letter on rig NP.0, where SN32149 and SN24272 both carry probe D. */
  const NP0Letters: map<string, char> := map[
    "SN32148" := 'A', "SN32142" := 'B', "SN32144" := 'C', "SN32149" := 'D',
    "SN24272" := 'D', "SN32135" := 'E', "SN24273" := 'F'
  ]
  /** Serial number to probe letter on rig NP.1. */
  const NP1Letters: map<string, char> := map[
    "SN40911" := 'A', "SN40900" := 'B', "SN40912" := 'C', "SN40913" := 'D',
    "SN40914" := 'E', "SN40910" := 'F'
  ]
  /** Serial number to probe letter on rig NP.2. */
  const NP2Letters: map<string, char> := map[
    "SN45356" := 'A', "SN45484" := 'B', "SN45485" := 'C', "SN45359" := 'D',
    "SN45482" := 'E', "SN45361" := 'F'
  ]
  /** Serial number to probe letter on rig NP.3. */
  const NP3Letters: map<string, char> := map[
    "SN40906" := 'A', "SN40908" := 'B', "SN40907" := 'C', "SN41084" := 'D',
    "SN40903" := 'E', "SN40902" := 'F'
  ]
  /** Serial number to probe letter, for the four rigs NP.0 to NP.3. */
  const SerialToProbeLetter: map<string, char> := NP0Letters + NP1Letters + NP2Letters + NP3Letters

  /** The manipulators whose z-axis travels 6000 units; SN24272 is not among them. */
  const ShortTravelSerials: set<string> :=
    {"SN32148", "SN32142", "SN32144", "SN32149", "SN32135", "SN24273"}

  const ShortTravelRange: int := 6000
  const LongTravelRange: int := 15000

  /** A registry of manipulators: the probe each serial number carries, and which
      of them are short-travel.  The resolver is stated over any registry; the one
      the rigs use is `NewScale`. */
  datatype DeviceRegistry = DeviceRegistry(probeLetter: map<string, char>, shortTravel: set<string>)

  const NewScale: DeviceRegistry := DeviceRegistry(SerialToProbeLetter, ShortTravelSerials)

  predicate IsKnown(registry: DeviceRegistry, serial: string) {
    serial in registry.probeLetter
  }

  /** The z-axis travel of a manipulator, or a failure naming the serial number
      when the registry does not know it. */
  function ZTravel(registry: DeviceRegistry, serial: string): (travel: Result<int>)
    ensures travel.Ok? <==> IsKnown(registry, serial)
    ensures travel.Err? ==> travel.error == UnknownSerial(serial)
    ensures travel.Ok? ==> (travel.value == ShortTravelRange <==> serial in registry.shortTravel)
    ensures travel.Ok? ==> (travel.value == LongTravelRange <==> serial !in registry.shortTravel)
  {
    if !IsKnown(registry, serial) then Err(UnknownSerial(serial))
    else if serial in registry.shortTravel then Ok(ShortTravelRange)
    else Ok(LongTravelRange)
  }

  /** Every short-travel serial is a registered one, so for each of them `ZTravel` succeeds with 6000. */
  lemma ShortTravelSerialsRegistered()
    ensures ShortTravelSerials <= SerialToProbeLetter.Keys
    ensures forall s :: s in ShortTravelSerials ==> ZTravel(NewScale, s) == Ok(ShortTravelRange)
  {
  }

  /** The documented examples: a short-travel and a long-travel serial number. */
  lemma ShortExample()
    ensures ZTravel(NewScale, "SN32144") == Ok(6000)
  {
  }

  lemma LongExample()
    ensures ZTravel(NewScale, "SN40911") == Ok(15000)
  {
  }

  /** SN24272 sits on NP.0 with the short-travel manipulators but is long-travel. */
  lemma Np0LongExample()
    ensures ZTravel(NewScale, "SN24272") == Ok(15000)
  {
  }

  /** A serial number outside the registry has no travel. */
  lemma UnknownExample()
    ensures ZTravel(NewScale, "unknown-id") == Err(UnknownSerial("unknown-id"))
  {
  }

  /** Two manipulators share probe letter D. */
  lemma SharedLetterD()
    ensures IsKnown(NewScale, "SN32149") && NewScale.probeLetter["SN32149"] == 'D'
    ensures IsKnown(NewScale, "SN24272") && NewScale.probeLetter["SN24272"] == 'D'
  {
    NotOnLaterRigs("SN32149");
    NotOnLaterRigs("SN24272");
  }

  /** Only NP.0 serial numbers have a digit other than 4 after "SN". */
  lemma NotOnLaterRigs(s: string)
    requires |s| >= 3 && s[2] != '4'
    ensures s !in NP1Letters && s !in NP2Letters && s !in NP3Letters
  {
  }

  /** SN40906 carries probe A on NP.3. */
  lemma LetterA()
    ensures IsKnown(NewScale, "SN40906") && NewScale.probeLetter["SN40906"] == 'A'
  {
  }
}
