/** Connection records of the Thera wormhole directory and the classification the
    bot's commands derive from them: the effective wormhole type (with the K162
    fallback), the ship-size label, and the ASCII model of Python's `str.lower`
    used to compare system names. */
module Wormholes {

  datatype Option<T> = None | Some(value: T)

  /** Fields of a record that the commands only display. */
  datatype Display = Display(
    regionName: string,
    eolStatus: string,
    massStatus: string,
    signatureId: string,
    destinationSignatureId: string,
    estimatedEol: string)

  /** One record of the directory: a connection from Thera (or Turnur) to a
      destination system, `jumps` gate jumps away from the searched system. */
  datatype Connection = Connection(
    jumps: nat,
    destName: string,
    destType: string,
    srcType: string,
    display: Display)

  /** The generic signature tag whose real type is the other side's. */
  const GenericConnectorTag: string := "K162"

  /** Type tags a battleship can pass, in the order the source lists them. */
  const BattleshipTags: seq<string> := ["V898", "F135", "M164"]

  /** Type tags a freighter can pass. */
  const FreighterTags: seq<string> := ["E587", "L031"]

  const FreighterLabel: string := "Large (Freighter)"
  const BattleshipLabel: string := "Large (Battleship)"
  const CruiserLabel: string := "Medium (Cruiser)"

  /** The wormhole type that decides the size class: the destination tag,
      unless it is K162, in which case the source tag. */
  function EffectiveType(c: Connection): (tag: string)
    ensures c.destType != GenericConnectorTag ==> tag == c.destType
    ensures c.destType == GenericConnectorTag ==> tag == c.srcType
    ensures tag == GenericConnectorTag ==> c.srcType == GenericConnectorTag
  {
    if c.destType != GenericConnectorTag then c.destType else c.srcType
  }

  /** The size lists are disjoint, so no tag is both freighter- and
      battleship-class. */
  lemma TagListsDisjoint(tag: string)
    ensures !(tag in FreighterTags && tag in BattleshipTags)
  {
  }

  /** The size label of a type tag: the freighter test is made first, then the
      battleship test, and everything else is cruiser-sized. */
  function SizeLabel(tag: string): (size: string)
    ensures size == FreighterLabel <==> tag in FreighterTags
    ensures size == BattleshipLabel <==> tag in BattleshipTags
    ensures size == CruiserLabel <==> tag !in FreighterTags && tag !in BattleshipTags
    ensures size == FreighterLabel || size == BattleshipLabel || size == CruiserLabel
  {
    TagListsDisjoint(tag);
    assert |FreighterLabel| == 17 && |BattleshipLabel| == 18 && |CruiserLabel| == 16;
    if tag in FreighterTags then FreighterLabel
    else if tag in BattleshipTags then BattleshipLabel
    else CruiserLabel
  }

  /** The size label shown for a connection. */
  function SizeOf(c: Connection): (size: string)
    ensures size == FreighterLabel <==> EffectiveType(c) in FreighterTags
    ensures size == BattleshipLabel <==> EffectiveType(c) in BattleshipTags
    ensures c.destType !in [GenericConnectorTag] + FreighterTags + BattleshipTags ==> size == CruiserLabel
  {
    SizeLabel(EffectiveType(c))
  }

  predicate IsUpper(ch: char) {
    'A' <= ch <= 'Z'
  }

  function LowerChar(ch: char): char {
    if IsUpper(ch) then (ch as int + 32) as char else ch
  }

  /** Python's `str.lower`, restricted to ASCII letters. */
  function Lower(s: string): (r: string)
    ensures |r| == |s|
    ensures forall i :: 0 <= i < |s| ==> r[i] == LowerChar(s[i])
    ensures forall i :: 0 <= i < |r| ==> !IsUpper(r[i])
  {
    if s == [] then [] else [LowerChar(s[0])] + Lower(s[1..])
  }

  /** Lower-casing twice is lower-casing once. */
  lemma LowerIdempotent(s: string)
    ensures Lower(Lower(s)) == Lower(s)
  {
    var l := Lower(s);
    assert forall i :: 0 <= i < |l| ==> LowerChar(l[i]) == l[i];
  }

  /** Two names that agree letter by letter up to ASCII case lower-case to the
      same string. */
  lemma CaseVariantsLowerEqual(a: string, b: string)
    requires |a| == |b|
    requires forall i :: 0 <= i < |a| ==> LowerChar(a[i]) == LowerChar(b[i])
    ensures Lower(a) == Lower(b)
  {
    var la, lb := Lower(a), Lower(b);
    assert |la| == |lb|;
    forall i | 0 <= i < |la|
      ensures la[i] == lb[i]
    {
      assert la[i] == LowerChar(a[i]);
    }
  }
}
