/**
 * The create-debate form: the edit of one named field, the duplicate-free tag list and the
 * reset after a successful submit.
 */
module CreateDebateForm {
  import opened Text
  import opened FilterState

  /** A form value: the numeric defaults until an input replaces them with its text. */
  datatype Scalar = Number(n: int) | Chars(s: string)

  datatype FormData = FormData(
    title: string,
    description: string,
    maxParticipants: Scalar,
    duration: Scalar,
    format: string,
    mode: string,
    tags: seq<string>)

  /** The `name` attributes of the form's inputs and selects. */
  datatype FieldName = Title | Description | MaxParticipants | Duration | FormatField | ModeField

  /** The form state: the form data and the text of the tag input. */
  datatype ModalState = ModalState(form: FormData, tagInput: string)

  /** The defaults the form starts from and returns to: 4 participants, 30 minutes, voice, free mode, no tags. */
  const Defaults := FormData("", "", Number(4), Number(30), "Voz", "Libre", [])

  const Opened := ModalState(Defaults, "")

  predicate Distinct(tags: seq<string>) {
    forall i, j :: 0 <= i < j < |tags| ==> tags[i] != tags[j]
  }

  /** `handleInputChange`: the input's text replaces the named field and nothing else. */
  function InputChange(f: FormData, name: FieldName, value: string): (g: FormData)
    ensures name == Title ==> g == f.(title := value)
    ensures name == Description ==> g == f.(description := value)
    ensures name == MaxParticipants ==> g == f.(maxParticipants := Chars(value))
    ensures name == Duration ==> g == f.(duration := Chars(value))
    ensures name == FormatField ==> g == f.(format := value)
    ensures name == ModeField ==> g == f.(mode := value)
    ensures g.tags == f.tags
  {
    match name
    case Title => f.(title := value)
    case Description => f.(description := value)
    case MaxParticipants => f.(maxParticipants := Chars(value))
    case Duration => f.(duration := Chars(value))
    case FormatField => f.(format := value)
    case ModeField => f.(mode := value)
  }

  /** The tag input's `onChange`. */
  function TagInputChange(s: ModalState, value: string): (t: ModalState)
    ensures t.form == s.form && t.tagInput == value
  {
    s.(tagInput := value)
  }

  /**
   * `handleAddTag`: a trimmed tag that is non-empty and not yet listed is appended and the
   * input cleared; otherwise nothing changes.
   */
  function AddTag(s: ModalState): (t: ModalState)
    ensures var tag := Trim(s.tagInput);
      tag != "" && tag !in s.form.tags ==> t == ModalState(s.form.(tags := s.form.tags + [tag]), "")
    ensures var tag := Trim(s.tagInput);
      tag == "" || tag in s.form.tags ==> t == s
  {
    var tag := Trim(s.tagInput);
    if tag != "" && tag !in s.form.tags then
      ModalState(s.form.(tags := s.form.tags + [tag]), "")
    else s
  }

  /** `handleRemoveTag`: every copy of the tag goes; the other tags keep their order. */
  function RemoveTag(s: ModalState, tag: string): (t: ModalState)
    ensures tag !in t.form.tags
    ensures forall x :: x in t.form.tags <==> x in s.form.tags && x != tag
    ensures t.form == s.form.(tags := t.form.tags) && t.tagInput == s.tagInput
  {
    s.(form := s.form.(tags := Without(s.form.tags, tag)))
  }

  /** After a successful submit the form returns to its defaults; the tag input is not cleared. */
  function Submitted(s: ModalState): (t: ModalState)
    ensures t.form.maxParticipants == Number(4) && t.form.duration == Number(30)
    ensures t.form.format == "Voz" && t.form.mode == "Libre" && t.form.tags == []
    ensures t.form.title == "" && t.form.description == ""
    ensures t.tagInput == s.tagInput
  {
    s.(form := Defaults)
  }

  /** Every tag in the list has no white space at either end and is non-empty. */
  predicate Trimmed(tags: seq<string>) {
    forall i :: 0 <= i < |tags| ==> Trim(tags[i]) == tags[i] && tags[i] != ""
  }

  /** Adding keeps the tag list duplicate-free and trimmed. */
  lemma AddTagKeepsTags(s: ModalState)
    requires Distinct(s.form.tags) && Trimmed(s.form.tags)
    ensures Distinct(AddTag(s).form.tags) && Trimmed(AddTag(s).form.tags)
  {
    var tag := Trim(s.tagInput);
    if tag != "" && tag !in s.form.tags {
      var before := s.form.tags;
      var r := before + [tag];
      assert AddTag(s).form.tags == r;
      forall i | 0 <= i < |r|
        ensures Trim(r[i]) == r[i] && r[i] != ""
      {
        if i < |before| {
          assert r[i] == before[i];
        } else {
          TrimIdempotent(s.tagInput);
        }
      }
      forall i, j | 0 <= i < j < |r|
        ensures r[i] != r[j]
      {
        if j == |before| {
          assert r[i] == before[i];
        } else {
          assert r[i] == before[i] && r[j] == before[j];
        }
      }
    }
  }

  /** Dropping an item keeps a duplicate-free list duplicate-free. */
  lemma {:induction false} WithoutKeepsDistinct(list: seq<string>, x: string)
    requires Distinct(list)
    ensures Distinct(Without(list, x))
  {
    if list != [] {
      assert Distinct(list[1..]);
      WithoutKeepsDistinct(list[1..], x);
      if list[0] != x {
        assert list[0] !in list[1..];
      }
    }
  }

  /** Removing keeps the tag list duplicate-free and trimmed. */
  lemma RemoveTagKeepsTags(s: ModalState, tag: string)
    requires Distinct(s.form.tags) && Trimmed(s.form.tags)
    ensures Distinct(RemoveTag(s, tag).form.tags) && Trimmed(RemoveTag(s, tag).form.tags)
  {
    WithoutKeepsDistinct(s.form.tags, tag);
    var r := RemoveTag(s, tag).form.tags;
    forall i | 0 <= i < |r|
      ensures Trim(r[i]) == r[i] && r[i] != ""
    {
      assert r[i] in s.form.tags;
    }
  }

  /** Adding a tag and removing it again gives back the list it was added to. */
  lemma AddThenRemove(s: ModalState)
    requires Trim(s.tagInput) != "" && Trim(s.tagInput) !in s.form.tags
    ensures RemoveTag(AddTag(s), Trim(s.tagInput)).form == s.form
  {
    var tag := Trim(s.tagInput);
    WithoutAppend(s.form.tags, tag, tag);
    WithoutAbsent(s.form.tags, tag);
  }
}
