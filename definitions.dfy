/** The table behind the settings window, `PROPERTY_DEFINITIONS`, and the
    facts about its keys that the rest of the model relies on. */
module PropertyDefinitions {

  /** One row of `PROPERTY_DEFINITIONS` (the window label is left out). */
  datatype PropertyDef = PropertyDef(key: string, default: string, isBool: bool)

  // The table is declared in four parts so that facts about its literal
  // keys are proved a few rows at a time.
  const PartA: seq<PropertyDef> := [
    PropertyDef("motd", "A Minecraft Server", false),
    PropertyDef("server-port", "25565", false),
    PropertyDef("server-ip", "", false),
    PropertyDef("max-players", "20", false),
    PropertyDef("online-mode", "true", true),
    PropertyDef("level-name", "world", false),
    PropertyDef("level-seed", "", false),
    PropertyDef("gamemode", "survival", false)
  ]

  const PartB: seq<PropertyDef> := [
    PropertyDef("difficulty", "1", false),
    PropertyDef("pvp", "true", true),
    PropertyDef("view-distance", "10", false),
    PropertyDef("spawn-monsters", "true", true),
    PropertyDef("spawn-npcs", "true", true),
    PropertyDef("spawn-animals", "true", true),
    PropertyDef("spawn-protection", "16", false),
    PropertyDef("enforce-whitelist", "false", true)
  ]

  const PartC: seq<PropertyDef> := [
    PropertyDef("enable-command-block", "false", true),
    PropertyDef("allow-flight", "false", true),
    PropertyDef("generate-structures", "true", true),
    PropertyDef("level-type", "default", false),
    PropertyDef("snooper-enabled", "true", true),
    PropertyDef("resource-pack", "", false),
    PropertyDef("enable-rcon", "false", true),
    PropertyDef("rcon.password", "", false)
  ]

  const PartD: seq<PropertyDef> := [
    PropertyDef("rcon.port", "25575", false),
    PropertyDef("max-tick-time", "60000", false),
    PropertyDef("function-permission-level", "2", false),
    PropertyDef("op-permission-level", "4", false),
    PropertyDef("query.enabled", "false", true),
    PropertyDef("query.port", "25565", false),
    PropertyDef("debug", "false", true),
    PropertyDef("allow-nether", "true", true),
    PropertyDef("announce-player-achievements", "true", true)
  ]

  const Definitions: seq<PropertyDef> := PartA + PartB + PartC + PartD

  /** A key made of lower-case ASCII letters, `-` and `.`. */
  predicate PlainKey(k: string) {
    k != [] && forall j :: 0 <= j < |k| ==> 'a' <= k[j] <= 'z' || k[j] == '-' || k[j] == '.'
  }

  // Each key is shown plain on its own, which keeps every proof small.

  lemma PartAPlain0()
    ensures PlainKey(PartA[0].key)
  {
  }

  lemma PartAPlain1()
    ensures PlainKey(PartA[1].key)
  {
  }

  lemma PartAPlain2()
    ensures PlainKey(PartA[2].key)
  {
  }

  lemma PartAPlain3()
    ensures PlainKey(PartA[3].key)
  {
  }

  lemma PartAPlain4()
    ensures PlainKey(PartA[4].key)
  {
  }

  lemma PartAPlain5()
    ensures PlainKey(PartA[5].key)
  {
  }

  lemma PartAPlain6()
    ensures PlainKey(PartA[6].key)
  {
  }

  lemma PartAPlain7()
    ensures PlainKey(PartA[7].key)
  {
  }

  lemma PartBPlain0()
    ensures PlainKey(PartB[0].key)
  {
  }

  lemma PartBPlain1()
    ensures PlainKey(PartB[1].key)
  {
  }

  lemma PartBPlain2()
    ensures PlainKey(PartB[2].key)
  {
  }

  lemma PartBPlain3()
    ensures PlainKey(PartB[3].key)
  {
  }

  lemma PartBPlain4()
    ensures PlainKey(PartB[4].key)
  {
  }

  lemma PartBPlain5()
    ensures PlainKey(PartB[5].key)
  {
  }

  lemma PartBPlain6()
    ensures PlainKey(PartB[6].key)
  {
  }

  lemma PartBPlain7()
    ensures PlainKey(PartB[7].key)
  {
  }

  lemma PartCPlain0()
    ensures PlainKey(PartC[0].key)
  {
  }

  lemma PartCPlain1()
    ensures PlainKey(PartC[1].key)
  {
  }

  lemma PartCPlain2()
    ensures PlainKey(PartC[2].key)
  {
  }

  lemma PartCPlain3()
    ensures PlainKey(PartC[3].key)
  {
  }

  lemma PartCPlain4()
    ensures PlainKey(PartC[4].key)
  {
  }

  lemma PartCPlain5()
    ensures PlainKey(PartC[5].key)
  {
  }

  lemma PartCPlain6()
    ensures PlainKey(PartC[6].key)
  {
  }

  lemma PartCPlain7()
    ensures PlainKey(PartC[7].key)
  {
  }

  lemma PartDPlain0()
    ensures PlainKey(PartD[0].key)
  {
  }

  lemma PartDPlain1()
    ensures PlainKey(PartD[1].key)
  {
  }

  lemma PartDPlain2()
    ensures PlainKey(PartD[2].key)
  {
  }

  lemma PartDPlain3()
    ensures PlainKey(PartD[3].key)
  {
  }

  lemma PartDPlain4()
    ensures PlainKey(PartD[4].key)
  {
  }

  lemma PartDPlain5()
    ensures PlainKey(PartD[5].key)
  {
  }

  lemma PartDPlain6()
    ensures PlainKey(PartD[6].key)
  {
  }

  lemma PartDPlain7()
    ensures PlainKey(PartD[7].key)
  {
  }

  lemma PartDPlain8()
    ensures PlainKey(PartD[8].key)
  {
  }

  lemma PartADistinct()
    ensures forall i, j :: 0 <= i < j < |PartA| ==> PartA[i].key != PartA[j].key
  {
  }

  lemma PartAPartBDistinct()
    ensures forall i, j :: 0 <= i < |PartA| && 0 <= j < |PartB| ==> PartA[i].key != PartB[j].key
  {
  }

  lemma PartAPartCDistinct()
    ensures forall i, j :: 0 <= i < |PartA| && 0 <= j < |PartC| ==> PartA[i].key != PartC[j].key
  {
  }

  lemma PartAPartDDistinct()
    ensures forall i, j :: 0 <= i < |PartA| && 0 <= j < |PartD| ==> PartA[i].key != PartD[j].key
  {
  }

  lemma PartBDistinct()
    ensures forall i, j :: 0 <= i < j < |PartB| ==> PartB[i].key != PartB[j].key
  {
  }

  lemma PartBPartCDistinct()
    ensures forall i, j :: 0 <= i < |PartB| && 0 <= j < |PartC| ==> PartB[i].key != PartC[j].key
  {
  }

  lemma PartBPartDDistinct()
    ensures forall i, j :: 0 <= i < |PartB| && 0 <= j < |PartD| ==> PartB[i].key != PartD[j].key
  {
  }

  lemma PartCDistinct()
    ensures forall i, j :: 0 <= i < j < |PartC| ==> PartC[i].key != PartC[j].key
  {
  }

  lemma PartCPartDDistinct()
    ensures forall i, j :: 0 <= i < |PartC| && 0 <= j < |PartD| ==> PartC[i].key != PartD[j].key
  {
  }

  lemma PartDDistinct()
    ensures forall i, j :: 0 <= i < j < |PartD| ==> PartD[i].key != PartD[j].key
  {
  }

  lemma DefinitionKeysPlain()
    ensures forall i :: 0 <= i < |Definitions| ==> PlainKey(Definitions[i].key)
  {
    PartAPlain0();
    PartAPlain1();
    PartAPlain2();
    PartAPlain3();
    PartAPlain4();
    PartAPlain5();
    PartAPlain6();
    PartAPlain7();
    PartBPlain0();
    PartBPlain1();
    PartBPlain2();
    PartBPlain3();
    PartBPlain4();
    PartBPlain5();
    PartBPlain6();
    PartBPlain7();
    PartCPlain0();
    PartCPlain1();
    PartCPlain2();
    PartCPlain3();
    PartCPlain4();
    PartCPlain5();
    PartCPlain6();
    PartCPlain7();
    PartDPlain0();
    PartDPlain1();
    PartDPlain2();
    PartDPlain3();
    PartDPlain4();
    PartDPlain5();
    PartDPlain6();
    PartDPlain7();
    PartDPlain8();
  }

  /** No two definitions share a key. */
  lemma DefinitionKeysDistinct()
    ensures forall i, j :: 0 <= i < j < |Definitions| ==> Definitions[i].key != Definitions[j].key
  {
    PartADistinct();
    PartAPartBDistinct();
    PartAPartCDistinct();
    PartAPartDDistinct();
    PartBDistinct();
    PartBPartCDistinct();
    PartBPartDDistinct();
    PartCDistinct();
    PartCPartDDistinct();
    PartDDistinct();
  }
}
