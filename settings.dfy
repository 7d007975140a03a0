/**
 * The player's settings screen: display name, friend key and preferred dictionary. A new
 * friend key is seven characters drawn from an alphabet without the look-alikes I, L, O,
 * 0 and 1; loading the settings lists the dictionaries on offer and selects the player's.
 */
module Settings {
  import opened Wrappers
  import opened Text

  const FRIEND_KEY_LENGTH: nat := 7
  const DEFAULT_DICTIONARY_NAME: string := "YAWL (Extended)"
  const DEFAULT_DICTIONARY_ID: int := 2
  /** The characters a friend key is drawn from, in the order the draws index them. */
  const KEY_CHARACTERS: string := "ABCDEFGHJKMNPQRSTUVWXYZ23456789"

  /** The alphabet has 31 distinct upper-case letters and digits, and none of I, L, O, 0 and 1. */
  lemma KeyCharactersSpec()
    ensures |KEY_CHARACTERS| == 31
    ensures forall i, j :: 0 <= i < j < |KEY_CHARACTERS| ==> KEY_CHARACTERS[i] != KEY_CHARACTERS[j]
    ensures forall c :: c in KEY_CHARACTERS ==> ('A' <= c <= 'Z' || '2' <= c <= '9') && c !in "ILO01"
  {
    var letters, digits := KEY_CHARACTERS[..23], KEY_CHARACTERS[23..];
    KeyCharactersIncrease();
    forall i, j | 0 <= i < j < |KEY_CHARACTERS| ensures KEY_CHARACTERS[i] != KEY_CHARACTERS[j] {
      KeyCharacterAt(i);
      KeyCharacterAt(j);
      if j < 23 {
        IncreasingPairs(letters, i, j);
      } else if 23 <= i {
        IncreasingPairs(digits, i - 23, j - 23);
      }
    }
    forall c | c in KEY_CHARACTERS ensures ('A' <= c <= 'Z' || '2' <= c <= '9') && c !in "ILO01" {
      var i :| 0 <= i < |KEY_CHARACTERS| && KEY_CHARACTERS[i] == c;
      KeyCharacterAt(i);
    }
  }

  /** The alphabet is the letters in order, then the digits in order. */
  lemma KeyCharactersIncrease()
    ensures forall k :: 0 < k < |KEY_CHARACTERS[..23]| ==> KEY_CHARACTERS[..23][k - 1] < KEY_CHARACTERS[..23][k]
    ensures forall k :: 0 < k < |KEY_CHARACTERS[23..]| ==> KEY_CHARACTERS[23..][k - 1] < KEY_CHARACTERS[23..][k]
  {
  }

  lemma KeyCharacterAt(i: int)
    requires 0 <= i < |KEY_CHARACTERS|
    ensures var c := KEY_CHARACTERS[i];
      && (i < 23 ==> 'A' <= c <= 'Z' && c != 'I' && c != 'L' && c != 'O')
      && (23 <= i ==> '2' <= c <= '9')
  {
  }

  lemma {:induction false} IncreasingPairs(s: string, i: int, j: int)
    requires forall k :: 0 < k < |s| ==> s[k - 1] < s[k]
    requires 0 <= i < j < |s|
    ensures s[i] < s[j]
    decreases j - i
  {
    if i + 1 < j {
      IncreasingPairs(s, i, j - 1);
    }
  }

  predicate ValidDraws(draws: seq<int>) {
    forall i :: 0 <= i < |draws| ==> 0 <= draws[i] < |KEY_CHARACTERS|
  }

  /** The key the draws pick: one alphabet character per draw, in order. */
  function KeyFromDraws(draws: seq<int>): (key: string)
    requires ValidDraws(draws)
    ensures |key| == |draws|
    ensures forall k :: 0 <= k < |key| ==> key[k] in KEY_CHARACTERS
  {
    seq(|draws|, k requires 0 <= k < |draws| => KEY_CHARACTERS[draws[k]])
  }

  /** Every regenerated friend key has seven characters, none of them I, L, O, 0 or 1. */
  lemma FriendKeyShape(draws: seq<int>)
    requires ValidDraws(draws) && |draws| == FRIEND_KEY_LENGTH
    ensures |KeyFromDraws(draws)| == 7
    ensures forall k :: 0 <= k < 7 ==> KeyFromDraws(draws)[k] !in "ILO01"
  {
    KeyCharactersSpec();
  }

  /** Every seven-character key over the alphabet is what some draws produce. */
  lemma EveryKeyReachable(key: string)
    requires |key| == FRIEND_KEY_LENGTH && forall k :: 0 <= k < |key| ==> key[k] in KEY_CHARACTERS
    ensures exists draws :: ValidDraws(draws) && |draws| == FRIEND_KEY_LENGTH && KeyFromDraws(draws) == key
  {
    var draws := seq(|key|, k requires 0 <= k < |key| => IndexOf(KEY_CHARACTERS, key[k]) as int);
    assert ValidDraws(draws);
    assert KeyFromDraws(draws) == key;
  }

  datatype DictionaryInfo = DictionaryInfo(id: int, name: string)
  datatype PlayerInfo = PlayerInfo(displayName: string, friendKey: string, dictionary: DictionaryInfo)
  /** What the server sends: the player's settings and the dictionaries on offer. */
  datatype SettingsData = SettingsData(player: PlayerInfo, dictionaries: seq<DictionaryInfo>)
  /** What is sent back when the settings are saved. */
  datatype PlayerSettings = PlayerSettings(displayName: string, dictionary: DictionaryInfo, friendKey: string)

  /** firstIndex(where: == name). */
  function FirstIndexOf(names: seq<string>, name: string): (r: Option<nat>)
    ensures r.Some? ==> r.value < |names| && names[r.value] == name && name !in names[..r.value]
    ensures r.None? ==> name !in names
  {
    if names == [] then None
    else if names[0] == name then Some(0)
    else
      match FirstIndexOf(names[1..], name)
      case None => None
      case Some(i) =>
        assert names[..i + 1] == [names[0]] + names[1..][..i];
        Some(i + 1)
  }

  class SettingsView {
    var displayName: string
    var friendKey: string
    var dictionaryNames: seq<string>
    var dictionaryIDs: seq<int>
    var currentDictionaryIndex: int

    /** The two dictionary lists run in parallel and the index is inside them when they are not empty. */
    ghost predicate Valid()
      reads this
    {
      && |dictionaryNames| == |dictionaryIDs|
      && 0 <= currentDictionaryIndex
      && (|dictionaryNames| > 0 ==> currentDictionaryIndex < |dictionaryNames|)
    }

    constructor ()
      ensures Valid()
      ensures displayName == "" && friendKey == ""
      ensures dictionaryNames == [DEFAULT_DICTIONARY_NAME] && dictionaryIDs == [DEFAULT_DICTIONARY_ID]
      ensures currentDictionaryIndex == 0
    {
      displayName := "";
      friendKey := "";
      dictionaryNames := [DEFAULT_DICTIONARY_NAME];
      dictionaryIDs := [DEFAULT_DICTIONARY_ID];
      currentDictionaryIndex := 0;
    }

    /**
     * Loading the settings: the lists are rebuilt, aligned by index, from the dictionaries
     * on offer, and the selection is the first dictionary named like the player's, or the
     * first dictionary when none is.
     */
    method LoadSettings(data: SettingsData)
      modifies this
      ensures Valid()
      ensures displayName == data.player.displayName && friendKey == data.player.friendKey
      ensures |dictionaryNames| == |data.dictionaries|
      ensures forall i :: 0 <= i < |data.dictionaries| ==>
        DictionaryInfo(dictionaryIDs[i], dictionaryNames[i]) == data.dictionaries[i]
      ensures currentDictionaryIndex == FirstIndexOf(dictionaryNames, data.player.dictionary.name).GetOr(0)
    {
      displayName := data.player.displayName;
      friendKey := data.player.friendKey;
      var names: seq<string>, ids: seq<int> := [], [];
      for i := 0 to |data.dictionaries|
        invariant |names| == |ids| == i
        invariant forall k :: 0 <= k < i ==> DictionaryInfo(ids[k], names[k]) == data.dictionaries[k]
      {
        names := names + [data.dictionaries[i].name];
        ids := ids + [data.dictionaries[i].id];
      }
      dictionaryNames, dictionaryIDs := names, ids;
      currentDictionaryIndex := FirstIndexOf(dictionaryNames, data.player.dictionary.name).GetOr(0);
    }

    /** A new friend key, one character per draw. */
    method RegenerateFriendKey(draws: seq<int>)
      requires ValidDraws(draws) && |draws| == FRIEND_KEY_LENGTH
      modifies this
      ensures friendKey == KeyFromDraws(draws)
      ensures displayName == old(displayName) && dictionaryNames == old(dictionaryNames)
      ensures dictionaryIDs == old(dictionaryIDs) && currentDictionaryIndex == old(currentDictionaryIndex)
    {
      var key: string := [];
      for i := 0 to FRIEND_KEY_LENGTH
        invariant key == KeyFromDraws(draws[..i])
      {
        key := key + [KEY_CHARACTERS[draws[i]]];
      }
      assert draws[..FRIEND_KEY_LENGTH] == draws;
      friendKey := key;
    }

    /**
     * The settings sent when saving: the dictionary is the id and the name at the selected
     * index. None where the source would trap, because the index is outside a list.
     */
    function SavedSettings(): (r: Option<PlayerSettings>)
      reads this
      ensures r.Some? <==> 0 <= currentDictionaryIndex < |dictionaryIDs| && currentDictionaryIndex < |dictionaryNames|
      ensures r.Some? ==> r.value.displayName == displayName && r.value.friendKey == friendKey
      ensures r.Some? ==>
        r.value.dictionary == DictionaryInfo(dictionaryIDs[currentDictionaryIndex], dictionaryNames[currentDictionaryIndex])
    {
      if 0 <= currentDictionaryIndex < |dictionaryIDs| && currentDictionaryIndex < |dictionaryNames| then
        Some(PlayerSettings(displayName,
          DictionaryInfo(dictionaryIDs[currentDictionaryIndex], dictionaryNames[currentDictionaryIndex]), friendKey))
      else None
    }

    /** In a valid state with some dictionary listed, saving always has a dictionary to send. */
    lemma SavedWhenListed()
      requires Valid() && |dictionaryNames| > 0
      ensures SavedSettings().Some?
    {
    }
  }

  /**
   * The dictionary saved after loading: the first dictionary on offer named like the
   * player's, or the first one on offer when none is.
   */
  lemma {:induction false} LoadedChoice(dictionaries: seq<DictionaryInfo>, name: string)
    requires |dictionaries| > 0
    ensures var names := seq(|dictionaries|, i requires 0 <= i < |dictionaries| => dictionaries[i].name);
      var c := FirstIndexOf(names, name).GetOr(0);
      && 0 <= c < |dictionaries|
      && (name in names ==> dictionaries[c].name == name && forall i :: 0 <= i < c ==> dictionaries[i].name != name)
      && (name !in names ==> c == 0)
  {
    var names := seq(|dictionaries|, i requires 0 <= i < |dictionaries| => dictionaries[i].name);
    var r := FirstIndexOf(names, name);
    if r.Some? {
      forall i | 0 <= i < r.value ensures dictionaries[i].name != name {
        assert names[..r.value][i] == names[i];
      }
    }
  }
}
