/** The story submission page (src/app/experiences/new/page.tsx): when the
    form may be sent, what is stored, the photo's object name, and the form
    state afterwards. The storage upload and the insert are parameters:
    whether each succeeded, and the public URL the upload produced. */
module NewStory {
  import opened Wrappers
  import opened Strings
  import TextRepair
  import Numbers

  /** A chosen photo, by its file name. */
  datatype Photo = Photo(fileName: string)

  datatype StoryForm = StoryForm(
    loading: bool, name: string, title: string, content: string,
    location: string, year: string, file: Option<Photo>,
    ok: Option<string>, err: Option<string>)

  /** `canSubmit`: the three required fields are not blank as typed, and
      nothing is in flight. */
  predicate CanSubmit(f: StoryForm) {
    !IsBlank(f.name) && !IsBlank(f.title) && !IsBlank(f.content) && !f.loading
  }

  /** The stored form of a field: `cleanText(x).trim()`. */
  function Safe(x: string): (r: string)
    ensures TextRepair.Normalized(r)
    ensures Trim(r) == r
    ensures r == TextRepair.Clean(x)
  {
    Trim(TextRepair.Clean(x))
  }

  /** The storage object name: the cleaned file name with every space made
      an underscore. */
  function UploadName(fileName: string): (r: string)
    ensures NoJsSpace(r)
    ensures r == SpacesToUnderscores(TextRepair.Clean(fileName))
  {
    var cleaned := TextRepair.Clean(fileName);
    UnderscoredHasNoSpace(cleaned);
    SpacesToUnderscores(cleaned)
  }

  /** Cleaned text holds no whitespace but plain spaces, so once those are
      replaced nothing of the JavaScript whitespace set is left. */
  lemma UnderscoredHasNoSpace(s: string)
    requires TextRepair.Normalized(s)
    ensures NoJsSpace(SpacesToUnderscores(s))
  {
    var r := SpacesToUnderscores(s);
    forall i | 0 <= i < |r|
      ensures !IsJsSpace(r[i])
    {
      assert r[i] == (if s[i] == ' ' then '_' else s[i]);
    }
  }

  /** The object path: upload time in milliseconds, a dash, the name. */
  function UploadPath(now: int, fileName: string): (p: string)
    ensures NoJsSpace(p)
    ensures StartsWith(p, Numbers.IntToString(now) + "-")
    ensures p[|Numbers.IntToString(now) + "-"|..] == UploadName(fileName)
    ensures p == Numbers.IntToString(now) + "-" + UploadName(fileName)
  {
    var stamp := Numbers.IntToString(now) + "-";
    var name := UploadName(fileName);
    var p := stamp + name;
    assert p[..|stamp|] == stamp && p[|stamp|..] == name;
    StampHasNoSpace(now);
    NoSpaceAppend(stamp, name);
    p
  }

  /** The upload path `${time}-${name}` splits back into its parts: for an
      upload time that is not negative, the first dash ends the time, which
      reads back, and the name follows it. `UploadPath` has this shape. */
  lemma StampedNameSplits(now: int, name: string)
    requires now >= 0
    ensures var p := Numbers.IntToString(now) + "-" + name;
      var k := |Numbers.IntToString(now)|;
      && k < |p| && p[k] == '-'
      && (forall i :: 0 <= i < k ==> p[i] != '-')
      && Numbers.ParseInt(p[..k]) == now
      && p[k + 1..] == name
  {
    var t := Numbers.IntToString(now);
    forall i | 0 <= i < |t|
      ensures t[i] != '-'
    {
      if i > 0 {
        assert Numbers.IsDigit(t[i]);
      }
    }
    DashSplit(t, name);
    Numbers.IntRoundTrip(now);
  }

  /** A dash-free prefix, a dash and the rest split back at the first dash. */
  lemma DashSplit(t: string, rest: string)
    requires forall i :: 0 <= i < |t| ==> t[i] != '-'
    ensures var p := t + "-" + rest;
      && |t| < |p| && p[|t|] == '-'
      && (forall i :: 0 <= i < |t| ==> p[i] != '-')
      && p[..|t|] == t && p[|t| + 1..] == rest
  {
    var p := t + "-" + rest;
    assert forall i :: 0 <= i < |t| ==> p[i] == t[i];
  }

  lemma StampHasNoSpace(now: int)
    ensures NoJsSpace(Numbers.IntToString(now) + "-")
  {
    var t := Numbers.IntToString(now);
    forall i | 0 <= i < |t + "-"|
      ensures !IsJsSpace((t + "-")[i])
    {
      if i < |t| && i > 0 {
        assert Numbers.IsDigit(t[i]);
      }
    }
  }

  lemma NoSpaceAppend(a: string, b: string)
    requires NoJsSpace(a) && NoJsSpace(b)
    ensures NoJsSpace(a + b)
  {
    forall i | 0 <= i < |a + b|
      ensures !IsJsSpace((a + b)[i])
    {
      if i >= |a| {
        assert (a + b)[i] == b[i - |a|];
      }
    }
  }

  datatype StoryPayload = StoryPayload(
    name: string, title: string, content: string,
    location: Option<string>, year: Option<string>, imageUrl: Option<string>, status: string)

  const Pending: string := "pending"
  const Submitted: string := "Submitted! Your story is pending approval and will appear once published."
  const SubmitFailed: string := "Failed to submit."

  /** One press of "Submit". `uploadOk`/`publicUrl` describe the photo
      upload (ignored without a photo), `insertOk` the insert, `message`
      the error text a failure carried. The result records the path
      uploaded to, the row inserted, and the form after the handler. */
  datatype Submission = Submission(uploadPath: Option<string>, inserted: Option<StoryPayload>, form: StoryForm)

  function Submit(f: StoryForm, now: int, uploadOk: bool, publicUrl: string, insertOk: bool, message: string): (s: Submission)
    ensures s.uploadPath.Some? <==> f.file.Some?
    ensures s.uploadPath.Some? ==> s.uploadPath.value == UploadPath(now, f.file.value.fileName)
    ensures s.inserted.Some? <==> f.file.None? || uploadOk
    ensures s.inserted.Some? ==> s.inserted.value.status == Pending
    ensures s.inserted.Some? ==> s.inserted.value.name == Safe(f.name) && s.inserted.value.title == Safe(f.title)
    ensures s.inserted.Some? ==> s.inserted.value.content == Safe(f.content)
    ensures s.inserted.Some? ==> (s.inserted.value.imageUrl.Some? <==> f.file.Some?)
    ensures s.inserted.Some? && f.file.Some? ==> s.inserted.value.imageUrl == Some(publicUrl)
    ensures s.inserted.Some? ==> (s.inserted.value.location.None? <==> Safe(f.location) == "")
    ensures s.inserted.Some? && s.inserted.value.location.Some? ==> s.inserted.value.location.value == Safe(f.location)
    ensures s.inserted.Some? ==> (s.inserted.value.year.None? <==> Safe(f.year) == "")
    ensures s.inserted.Some? && s.inserted.value.year.Some? ==> s.inserted.value.year.value == Safe(f.year)
    ensures !s.form.loading
    ensures s.form.ok.Some? <==> s.inserted.Some? && insertOk
    ensures s.form.ok.Some? ==> s.form == StoryForm(false, "", "", "", "", "", None, Some(Submitted), None)
    ensures s.form.ok.None? ==> s.form.err.Some? && s.form.(loading := f.loading, err := f.err, ok := f.ok) == f
    ensures s.form.ok.None? ==> s.form.err == Some(OrElse(message, SubmitFailed))
    ensures s.form.ok.None? && message != "" ==> s.form.err == Some(message)
    ensures s.form.ok.None? && message == "" ==> s.form.err == Some(SubmitFailed)
  {
    var path := if f.file.Some? then Some(UploadPath(now, f.file.value.fileName)) else None;
    var failed := f.(loading := false, ok := None, err := Some(OrElse(message, SubmitFailed)));
    if f.file.Some? && !uploadOk then Submission(path, None, failed)
    else
      var payload := StoryPayload(
        Safe(f.name), Safe(f.title), Safe(f.content),
        OrNull(Safe(f.location)), OrNull(Safe(f.year)),
        if f.file.Some? then Some(publicUrl) else None,
        Pending);
      if !insertOk then Submission(path, Some(payload), failed)
      else Submission(path, Some(payload), StoryForm(false, "", "", "", "", "", None, Some(Submitted), None))
  }

  /** After a successful submission the cleared form cannot be sent again
      until the required fields are filled in anew. */
  lemma SubmittedFormNotSendable(f: StoryForm, now: int, uploadOk: bool, publicUrl: string, message: string)
    requires f.file.None? || uploadOk
    ensures !CanSubmit(Submit(f, now, uploadOk, publicUrl, true, message).form)
  {
    var s := Submit(f, now, uploadOk, publicUrl, true, message);
    assert s.form.name == "";
    TrimEmpty();
  }

  lemma TrimEmpty()
    ensures IsBlank("")
  {
    assert Trim("") == "";
  }

  /** The check before sending looks at the fields as typed, the stored row
      at the cleaned fields: a name made only of the stray `Â` artefact
      passes the check, and `Submit` stores it as the empty name. */
  lemma ArtifactNamePassesButStoresEmpty(f: StoryForm)
    requires f.name == [TextRepair.Artifact] && f.title == "t" && f.content == "c" && !f.loading
    ensures CanSubmit(f)
    ensures Safe(f.name) == ""
  {
    NotBlank(f.name);
    NotBlank(f.title);
    NotBlank(f.content);
    TextRepair.ArtifactOnlyCleansToEmpty();
    assert TextRepair.Clean(f.name) == "";
    assert Trim("") == "";
  }

  lemma NotBlank(s: string)
    requires |s| == 1 && !IsJsSpace(s[0])
    ensures !IsBlank(s)
  {
    TrimNoEdges(s);
  }
}
