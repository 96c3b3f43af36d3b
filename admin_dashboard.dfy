/**
 * The admin dashboard's forms: the title suggested for a dropped file, the upload
 * form (drop, submit, reset after success) and the video registration form.
 */
module AdminDashboard {
  import opened Wrappers
  import opened Text
  import opened Schema
  import opened Resources
  import opened Videos

  // ----- the suggested title -----

  /** The match of `/\.[^/.]+$/` at `i`: a `.` followed, up to the end, by at least one character and no `.` or `/`. */
  ghost predicate ExtensionAt(name: string, i: int) {
    0 <= i < |name| - 1 && name[i] == '.' && '.' !in name[i + 1..] && '/' !in name[i + 1..]
  }

  /** `name.replace(/\.[^/.]+$/, '')`: drops the trailing extension when there is one. */
  function StripExtension(name: string): (r: string)
    ensures r <= name
    ensures r != name <==> exists i :: ExtensionAt(name, i)
    ensures r != name ==> ExtensionAt(name, |r|)
  {
    var ext := AfterLast(name, '.');
    if |ext| < |name| && ext != [] && '/' !in ext then
      var r := name[..|name| - |ext| - 1];
      assert name[|r| + 1..] == ext;
      assert ExtensionAt(name, |r|);
      r
    else
      ExtensionFollowsLastDot(name);
      name
  }

  /** A strippable extension is always the text after the last `.`. */
  lemma ExtensionFollowsLastDot(name: string)
    ensures forall i :: ExtensionAt(name, i) ==> AfterLast(name, '.') == name[i + 1..]
  {
    forall i | ExtensionAt(name, i) ensures AfterLast(name, '.') == name[i + 1..] {
      AfterLastIs(name, '.', name[i + 1..]);
    }
  }

  /** `s.replace(/[-_]/g, ' ')`. */
  function SpacesForSeparators(s: string): (r: string)
    ensures |r| == |s|
    ensures '-' !in r && '_' !in r
    ensures forall i :: 0 <= i < |s| && s[i] != '-' && s[i] != '_' ==> r[i] == s[i]
  {
    seq(|s|, i requires 0 <= i < |s| => if s[i] == '-' || s[i] == '_' then ' ' else s[i])
  }

  /** `s.charAt(0).toUpperCase() + s.slice(1)`. */
  function Capitalize(s: string): (r: string)
    ensures |r| == |s|
    ensures s != [] ==> r[0] == UpperChar(s[0]) && r[1..] == s[1..]
  {
    if s == [] then [] else [UpperChar(s[0])] + s[1..]
  }

  /** The title suggested for a dropped file. */
  function DeriveTitle(fileName: string): string {
    Capitalize(SpacesForSeparators(StripExtension(fileName)))
  }

  /**
   * The suggested title keeps the length of the name without its extension, holds no
   * `-` or `_`, starts with the upper-cased first character and otherwise shows the
   * name with each separator turned into a space.
   */
  lemma DeriveTitleSpec(fileName: string)
    ensures |DeriveTitle(fileName)| == |StripExtension(fileName)|
    ensures '-' !in DeriveTitle(fileName) && '_' !in DeriveTitle(fileName)
    ensures forall i :: 1 <= i < |DeriveTitle(fileName)| ==> DeriveTitle(fileName)[i] == SpacesForSeparators(StripExtension(fileName))[i]
    ensures DeriveTitle(fileName) != [] ==> DeriveTitle(fileName)[0] == UpperChar(SpacesForSeparators(StripExtension(fileName))[0])
  {
    var spaced := SpacesForSeparators(StripExtension(fileName));
    var t := Capitalize(spaced);
    if spaced != [] {
      assert t == [UpperChar(spaced[0])] + spaced[1..];
      assert spaced[0] in spaced;
      forall i | 1 <= i < |t| ensures t[i] == spaced[i] {
        assert t[i] == spaced[1..][i - 1];
      }
    }
  }

  /** For `stem.ext` the suggestion is built from `stem` alone. */
  lemma DeriveTitleOfFileName(stem: string, ext: string)
    requires ext != [] && '.' !in ext && '/' !in ext
    ensures DeriveTitle(stem + "." + ext) == Capitalize(SpacesForSeparators(stem))
  {
    var name := stem + "." + ext;
    assert name[|stem| + 1..] == ext;
    assert ExtensionAt(name, |stem|);
    var r := StripExtension(name);
    assert ExtensionAt(name, |r|);
    assert r == name[..|stem|] == stem;
  }

  // ----- what the dropzone offers and the server takes -----

  /** The extensions the dropzone offers besides the server's allowed ones. */
  const ImageExtensions: seq<string> := ["jpg", "jpeg", "png"]

  /** An image the dropzone takes is refused by the server's filter, with its extension named. */
  lemma DroppedImagesRefused(stem: string, ext: string)
    requires stem != [] && stem[|stem| - 1] != '/'
    requires ext in ImageExtensions
    ensures FileFilter(stem + "." + ext) == Reject("File type " + ("." + ext) + " is not allowed")
  {
    FileFilterOfExtension(stem, ext);
    ImageExtensionNotAllowed(ext);
  }

  lemma ImageExtensionNotAllowed(ext: string)
    requires ext in ImageExtensions
    ensures Lower("." + ext) == "." + ext && "." + ext !in AllowedExtensions
  {
    var dotted := "." + ext;
    forall i | 0 <= i < |dotted| ensures LowerChar(dotted[i]) == dotted[i] {
      assert dotted[i] == '.' || 'a' <= dotted[i] <= 'z';
    }
    assert dotted[1] == 'j' || (dotted[1] == 'p' && dotted[2] == 'n');
    forall a | a in AllowedExtensions ensures |a| >= 3 && a[1] != 'j' && (a[1] == 'p' ==> a[2] != 'n') {
    }
  }

  // ----- the forms -----

  /** A file picked in the dropzone. */
  datatype DroppedFile = DroppedFile(name: string, mimeType: string, content: Bytes)

  /** The multipart body `handleFileUpload` sends: the file and the three text fields, always present. */
  function UploadRequest(file: DroppedFile, title: string, semester: string, category: string): UploadForm {
    UploadForm(Some(UploadedFile(file.name, file.mimeType, file.content)), Some(title), Some(semester), Some(category))
  }

  /**
   * A request with an accepted file, a title and a semester the form offers (1 to 8) is
   * admitted by the server with exactly those values.
   */
  lemma UploadRequestAdmitted(file: DroppedFile, title: string, n: nat, category: string)
    requires 1 <= n <= 8 && title != ""
    requires FileFilter(file.name) == Accept && |file.content| <= MaxFileSize
    ensures var a := Admit(true, UploadRequest(file, title, NatToString(n), category));
      && a.Admitted? && a.title == title && a.semester == n && a.file.content == file.content
      && a.category == OrElse(Some(category), "General")
  {
    var form := UploadRequest(file, title, NatToString(n), category);
    AdmitReadsFormSemester(n, form);
    AdmittedForm(true, form);
  }

  /** The form state of the dashboard. */
  class AdminForm {
    var title: string
    var semester: string
    var category: string
    var selectedFile: Option<DroppedFile>
    var uploading: bool
    var videoTitle: string
    var videoUrl: string
    var videoSubject: string
    var videoSemester: string
    var registering: bool

    /** The upload fields as a fresh form shows them. */
    predicate UploadFieldsReset()
      reads this
    {
      title == "" && semester == "1" && category == "General" && selectedFile == None
    }

    /** The video fields as a fresh form shows them. */
    predicate VideoFieldsReset()
      reads this
    {
      videoTitle == "" && videoUrl == "" && videoSubject == "" && videoSemester == "1"
    }

    constructor()
      ensures UploadFieldsReset() && VideoFieldsReset()
      ensures !uploading && !registering
    {
      title := "";
      semester := "1";
      category := "General";
      selectedFile := None;
      uploading := false;
      videoTitle := "";
      videoUrl := "";
      videoSubject := "";
      videoSemester := "1";
      registering := false;
    }

    /**
     * `onDrop`: the first accepted file is selected, and it names the title only when the
     * title is still empty; an empty drop changes nothing.
     */
    method OnDrop(accepted: seq<DroppedFile>)
      modifies this`selectedFile, this`title
      ensures accepted == [] ==> selectedFile == old(selectedFile) && title == old(title)
      ensures accepted != [] ==> selectedFile == Some(accepted[0])
      ensures accepted != [] && old(title) == "" ==> title == DeriveTitle(accepted[0].name)
      ensures old(title) != "" ==> title == old(title)
    {
      if |accepted| > 0 {
        selectedFile := Some(accepted[0]);
        if title == "" {
          title := DeriveTitle(accepted[0].name);
        }
      }
    }

    /**
     * `handleFileUpload`, given whether the server answered ok: without a selected file
     * nothing is sent and nothing changes; otherwise the form is sent, and a success
     * resets the upload fields while a failure keeps them.
     */
    method SubmitUpload(succeeded: bool) returns (request: Option<UploadForm>)
      modifies this`title, this`semester, this`category, this`selectedFile, this`uploading
      ensures old(selectedFile).None? ==> request == None && unchanged(this)
      ensures old(selectedFile).Some? ==> request == Some(UploadRequest(old(selectedFile).value, old(title), old(semester), old(category)))
      ensures old(selectedFile).Some? && succeeded ==> UploadFieldsReset() && !uploading
      ensures old(selectedFile).Some? && !succeeded ==>
        title == old(title) && semester == old(semester) && category == old(category) && selectedFile == old(selectedFile) && !uploading
    {
      if selectedFile.None? {
        return None;
      }
      uploading := true;
      request := Some(UploadRequest(selectedFile.value, title, semester, category));
      if succeeded {
        title := "";
        semester := "1";
        category := "General";
        selectedFile := None;
      }
      uploading := false;
    }

    /**
     * `handleVideoRegister`, given whether the server answered ok: the fields are always
     * sent; a success resets them, a failure keeps them.
     */
    method RegisterVideo(succeeded: bool) returns (request: VideoForm)
      modifies this`videoTitle, this`videoUrl, this`videoSubject, this`videoSemester, this`registering
      ensures request == VideoForm(Some(old(videoTitle)), Some(old(videoUrl)), Some(old(videoSubject)), Some(old(videoSemester)))
      ensures succeeded ==> VideoFieldsReset()
      ensures !succeeded ==>
        videoTitle == old(videoTitle) && videoUrl == old(videoUrl) && videoSubject == old(videoSubject) && videoSemester == old(videoSemester)
      ensures !registering
    {
      registering := true;
      request := VideoForm(Some(videoTitle), Some(videoUrl), Some(videoSubject), Some(videoSemester));
      if succeeded {
        videoTitle := "";
        videoUrl := "";
        videoSubject := "";
        videoSemester := "1";
      }
      registering := false;
    }
  }
}
