/**
 * Values the extension receives from its host editor: optional values,
 * document positions and ranges, source locations and text editors.
 * Only the parts of the host's API that the clipboard history and the
 * cycling paste read are modelled; all of them are plain values here.
 */
module Host {

  datatype Option<T> = None | Some(value: T) {
    function GetOr(default: T): T {
      match this
      case Some(v) => v
      case None => default
    }
  }

  /** A zero-based (line, character) position in a document. */
  datatype Position = Position(line: nat, character: nat) {

    /** The host's `isBefore`: strictly earlier in (line, character) order. */
    predicate IsBefore(other: Position) {
      line < other.line || (line == other.line && character < other.character)
    }

    /** The host's `translate(0, delta)` for a non-negative character delta. */
    function TranslateCharacters(delta: nat): (p: Position)
      ensures p.line == line && p.character == character + delta
    {
      Position(line, character + delta)
    }
  }

  /** A range between two positions; the host keeps `start` not after `end`. */
  datatype Range = Range(start: Position, end: Position) {

    predicate Valid() {
      !end.IsBefore(start)
    }

    predicate IsEmpty() {
      start == end
    }

    /** The host's `contains(position)`: endpoints included. */
    predicate ContainsPosition(p: Position) {
      !p.IsBefore(start) && !end.IsBefore(p)
    }

    /** The host's `contains(range)`: both endpoints of `other` lie inside. */
    predicate ContainsRange(other: Range) {
      ContainsPosition(other.start) && ContainsPosition(other.end)
    }
  }

  /** Where a clip was copied from: a document identity and a range in it. */
  datatype Location = Location(uri: string, range: Range)

  /** Identity of an open text editor (the host compares editors by object identity). */
  type EditorId = nat

  /** The active text editor as a command sees it: its identity and its primary selection. */
  datatype Editor = Editor(id: EditorId, selection: Range)

  /**
   * An edit a command hands to `editor.edit` and has not yet seen settle:
   * delete `target` in editor `editor`, then insert `text` at `insertPos`.
   */
  datatype PendingEdit = PendingEdit(editor: EditorId, target: Range, insertPos: Position, text: string)

  lemma ValidRangeContainsItself(r: Range)
    requires r.Valid()
    ensures r.ContainsRange(r)
    ensures r.ContainsPosition(r.start) && r.ContainsPosition(r.end)
  {
  }
}
