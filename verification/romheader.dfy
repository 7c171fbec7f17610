/** The part of `ROM.load` that reads the game code from the cartridge
    header: which release of the game the image is, how many overlays it
    has, whether the editor treats it as a New Super Mario Bros. image, and,
    for the Pokémon games, where their patchable code starts.

    `load` writes process-wide static fields and never resets two of them,
    so the settings are threaded through as an explicit record: the result
    depends on the settings before the call. */
module RomHeader {

  /** `ROM.Origin`, the release an image belongs to. */
  datatype Origin = US | EU | JP | KR | CH | UNK

  /** The column of `ROM.Offsets` an origin selects (`(int)Region`). */
  function RegionIndex(o: Origin): (i: nat)
    ensures i < 6
    ensures o != UNK <==> i < 5
  {
    match o
    case US => 0
    case EU => 1
    case JP => 2
    case KR => 3
    case CH => 4
    case UNK => 5
  }

  /** The static fields `load` sets from the game code. */
  datatype Settings = Settings(region: Origin, overlayCount: int, isNsmbRom: bool, asmOffset: int)

  const ASM_OFFSET_DEFAULT: int := 0xE00
  const OVERLAY_COUNT_EU: int := 134

  /** The game codes of the five releases of the game, by origin. */
  function ReleaseCode(o: Origin): string
    requires o != UNK
  {
    match o
    case US => "A2DE"
    case EU => "A2DP"
    case JP => "A2DJ"
    case KR => "A2DK"
    case CH => "A2DC"
  }

  /** The `if`/`else if` chain of `load` over the game code, as written:
      the five releases first, then, for any other image, the Pokémon
      releases the editor knows the code offset of. */
  function ResolveGameCode(prev: Settings, code: string): (s: Settings)
  {
    if code == "A2DE" then prev.(region := US, asmOffset := ASM_OFFSET_DEFAULT)
    else if code == "A2DP" then prev.(region := EU, overlayCount := OVERLAY_COUNT_EU, asmOffset := ASM_OFFSET_DEFAULT)
    else if code == "A2DJ" then prev.(region := JP, asmOffset := ASM_OFFSET_DEFAULT)
    else if code == "A2DK" then prev.(region := KR, asmOffset := ASM_OFFSET_DEFAULT)
    else if code == "A2DC" then prev.(region := CH, asmOffset := ASM_OFFSET_DEFAULT)
    else prev.(region := UNK, isNsmbRom := false, asmOffset := OtherAsmOffset(code))
  }

  /** The inner chain for images that are not the game: Diamond, Pearl,
      Platinum, HeartGold and SoulSilver in their seven languages, in that
      order, and 0xE00 for any other code. */
  function OtherAsmOffset(code: string): int {
    DiamondOffset(code, PearlOffset(code, PlatinumOffset(code,
      HeartGoldOffset(code, SoulSilverOffset(code, ASM_OFFSET_DEFAULT)))))
  }

  /** The seven Pokémon Diamond codes of the chain, in order; `otherwise`
      for any other code. */
  function DiamondOffset(code: string, otherwise: int): int {
    if code == "ADAE" then 0x106770
    else if code == "ADAJ" then 0x108070
    else if code == "ADAF" then 0x1068F0
    else if code == "ADAS" then 0x106910
    else if code == "ADAI" then 0x106850
    else if code == "ADAD" then 0x1068B0
    else if code == "ADAK" then 0x103C70
    else otherwise
  }

  const DIAMOND_CODES: set<string> := {"ADAE", "ADAJ", "ADAF", "ADAS", "ADAI", "ADAD", "ADAK"}

  lemma DiamondOffsetOutside(code: string, otherwise: int)
    requires code !in DIAMOND_CODES
    ensures DiamondOffset(code, otherwise) == otherwise
  {
  }

  /** The seven Pokémon Pearl codes of the chain, in order; `otherwise`
      for any other code. */
  function PearlOffset(code: string, otherwise: int): int {
    if code == "APAE" then 0x106770
    else if code == "APAJ" then 0x1081B0
    else if code == "APAF" then 0x1068F0
    else if code == "APAS" then 0x106910
    else if code == "APAI" then 0x106850
    else if code == "APAD" then 0x1068B0
    else if code == "APAK" then 0x103C80
    else otherwise
  }

  const PEARL_CODES: set<string> := {"APAE", "APAJ", "APAF", "APAS", "APAI", "APAD", "APAK"}

  lemma PearlOffsetOutside(code: string, otherwise: int)
    requires code !in PEARL_CODES
    ensures PearlOffset(code, otherwise) == otherwise
  {
  }

  /** The seven Pokémon Platinum codes of the chain, in order; `otherwise`
      for any other code. */
  function PlatinumOffset(code: string, otherwise: int): int {
    if code == "CPUE" then 0x1010A0
    else if code == "CPUJ" then 0x100490
    else if code == "CPUF" then 0x101280
    else if code == "CPUS" then 0x1012A0
    else if code == "CPUI" then 0x101200
    else if code == "CPUD" then 0x101240
    else if code == "CPUK" then 0x101F90
    else otherwise
  }

  const PLATINUM_CODES: set<string> := {"CPUE", "CPUJ", "CPUF", "CPUS", "CPUI", "CPUD", "CPUK"}

  lemma PlatinumOffsetOutside(code: string, otherwise: int)
    requires code !in PLATINUM_CODES
    ensures PlatinumOffset(code, otherwise) == otherwise
  {
  }

  /** The seven Pokémon HeartGold codes of the chain, in order; `otherwise`
      for any other code. */
  function HeartGoldOffset(code: string, otherwise: int): int {
    if code == "IPKE" then 0x110BE0
    else if code == "IPKJ" then 0x110110
    else if code == "IPKF" then 0x110C00
    else if code == "IPKS" then 0x110C00
    else if code == "IPKI" then 0x110B80
    else if code == "IPKD" then 0x110BC0
    else if code == "IPKK" then 0x1115D0
    else otherwise
  }

  const HEART_GOLD_CODES: set<string> := {"IPKE", "IPKJ", "IPKF", "IPKS", "IPKI", "IPKD", "IPKK"}

  lemma HeartGoldOffsetOutside(code: string, otherwise: int)
    requires code !in HEART_GOLD_CODES
    ensures HeartGoldOffset(code, otherwise) == otherwise
  {
  }

  /** The seven Pokémon SoulSilver codes of the chain, in order; `otherwise`
      for any other code. */
  function SoulSilverOffset(code: string, otherwise: int): int {
    if code == "IPGE" then 0x110BE0
    else if code == "IPGJ" then 0x110110
    else if code == "IPGF" then 0x110C00
    else if code == "IPGS" then 0x110C20
    else if code == "IPGI" then 0x110B80
    else if code == "IPGD" then 0x110BC0
    else if code == "IPGK" then 0x1115D0
    else otherwise
  }

  const SOUL_SILVER_CODES: set<string> := {"IPGE", "IPGJ", "IPGF", "IPGS", "IPGI", "IPGD", "IPGK"}

  lemma SoulSilverOffsetOutside(code: string, otherwise: int)
    requires code !in SOUL_SILVER_CODES
    ensures SoulSilverOffset(code, otherwise) == otherwise
  {
  }

  /** The game codes of the Pokémon releases the editor knows. */
  const POKEMON_CODES: set<string> :=
    DIAMOND_CODES + PEARL_CODES + PLATINUM_CODES + HEART_GOLD_CODES + SOUL_SILVER_CODES

  /** Each release's code selects its origin, and keeps the code offset at
      0xE00; only the European release changes the overlay count, to 134. */
  lemma ReleaseCodeResolves(prev: Settings, o: Origin)
    requires o != UNK
    ensures ResolveGameCode(prev, ReleaseCode(o)).region == o
    ensures ResolveGameCode(prev, ReleaseCode(o)).asmOffset == ASM_OFFSET_DEFAULT
    ensures ResolveGameCode(prev, ReleaseCode(o)).isNsmbRom == prev.isNsmbRom
    ensures ResolveGameCode(prev, ReleaseCode(o)).overlayCount
      == if o == EU then OVERLAY_COUNT_EU else prev.overlayCount
  {
  }

  /** Only the five release codes give a known origin, each its own: every
      other code gives `UNK` and clears `isNSMBRom`. */
  lemma OnlyReleaseCodesResolve(prev: Settings, code: string)
    ensures var s := ResolveGameCode(prev, code);
      s.region != UNK ==> code == ReleaseCode(s.region)
    ensures var s := ResolveGameCode(prev, code);
      s.region == UNK ==> !s.isNsmbRom && s.overlayCount == prev.overlayCount
  {
  }

  /** The code offset is 0xE00 unless the code is one of the Pokémon
      releases. */
  lemma AsmOffsetOutsidePokemon(prev: Settings, code: string)
    requires code !in POKEMON_CODES
    ensures ResolveGameCode(prev, code).asmOffset == ASM_OFFSET_DEFAULT
  {
    ResolvedAsmOffset(prev, code);
    OtherOutsidePokemon(code);
  }

  /** The code offset is either 0xE00 or what the inner chain gives. */
  lemma ResolvedAsmOffset(prev: Settings, code: string)
    ensures ResolveGameCode(prev, code).asmOffset == ASM_OFFSET_DEFAULT
      || ResolveGameCode(prev, code).asmOffset == OtherAsmOffset(code)
  {
  }

  /** The inner chain falls through to 0xE00 for a code of no game it
      names. */
  lemma OtherOutsidePokemon(code: string)
    requires code !in POKEMON_CODES
    ensures OtherAsmOffset(code) == ASM_OFFSET_DEFAULT
  {
    var ss := SoulSilverOffset(code, ASM_OFFSET_DEFAULT);
    var hg := HeartGoldOffset(code, ss);
    var pt := PlatinumOffset(code, hg);
    var pl := PearlOffset(code, pt);
    SoulSilverOffsetOutside(code, ASM_OFFSET_DEFAULT);
    HeartGoldOffsetOutside(code, ss);
    PlatinumOffsetOutside(code, hg);
    PearlOffsetOutside(code, pt);
    DiamondOffsetOutside(code, pl);
  }

}
