/**
 The validator's document path is a JSON Pointer: parsing it gives back the raw names and indices that
 lead to the current position (what `GetInvalidDocumentPointer` does with the path).
 */
module JsonValidatorPointer {
  import opened Bytes
  import opened Optional
  import opened Sequences
  import opened JsonTypes
  import opened JsonPointer
  import opened JsonPointerProof
  import Validator = JsonValidator
  import Path = JsonValidatorPath
  import Schema = JsonSchema

  function TokensOf(names: seq<Text>): seq<Token> {
    seq(|names|, k requires 0 <= k < |names| => Token(names[k], IndexOf(names[k])))
  }

  /** The validator escapes a token as the pointer does. */
  lemma {:induction false} EscapesAlike(name: Text, j: nat)
    requires j <= |name|
    ensures StringifyName(name, j, false) == Some(Validator.EscapeToken(name[j..]))
    decreases |name| - j
  {
    if j < |name| {
      EscapesAlike(name, j + 1);
      assert name[j..][1..] == name[j + 1..];
    }
  }

  lemma {:induction false} SpellsAlike(names: seq<Text>, k: nat)
    requires k <= |names|
    ensures StringifyTokens(TokensOf(names), k, false).Some?
    ensures Path.Spell(names) == Path.Spell(names[..k]) + StringifyTokens(TokensOf(names), k, false).value
    decreases |names| - k
  {
    hide Path.Spell, StringifyName, Validator.EscapeToken;
    if k == |names| {
      assert names[..k] == names && Path.Spell(names) + [] == Path.Spell(names);
    } else {
      SpellsAlike(names, k + 1);
      EscapesAlike(names[k], 0);
      assert names[k][0..] == names[k];
      assert names[..k + 1] == names[..k] + [names[k]];
      Path.SpellMore(names[..k], names[k]);
      Regroup(Path.Spell(names[..k]), Validator.KeyToken(names[k]),
              StringifyTokens(TokensOf(names), k + 1, false).value);
    }
  }

  /** Parsing a spelled path gives back its names, whatever they hold. */
  lemma {:induction false} PathParsesBack(names: seq<Text>)
    ensures Parse(Path.Spell(names)) == Tokens(TokensOf(names))
  {
    hide Parse, Path.Spell, StringifyTokens, IndexOf;
    SpellsAlike(names, 0);
    assert names[..0] == [];
    Path.NoNames();
    var t := StringifyTokens(TokensOf(names), 0, false).value;
    assert [] + t == t;
    ParsingUndoesStringifying(TokensOf(names), false);
  }

  /**
   At every position inside a tree, a validator that has not failed holds a path that parses to the raw path of the
   position.
   */
  lemma {:induction false} PathIsPointer(root: Schema.Schema, es: seq<Event>)
    requires Path.Locate(es).Some? && Path.Locate(es).value.Inside?
    requires Validator.FeedAll(Validator.Fresh(root, []), es).valid
    ensures Parse(Validator.FeedAll(Validator.Fresh(root, []), es).path)
         == Tokens(TokensOf(Path.Here(Path.Locate(es).value.places)))
  {
    hide Parse, Path.Spell, Path.Here, Path.Locate, Validator.FeedAll;
    Path.PathSpellsPosition(root, [], es);
    var names := Path.Here(Path.Locate(es).value.places);
    assert [] + Path.Spell(names) == Path.Spell(names);
    PathParsesBack(names);
  }
}
