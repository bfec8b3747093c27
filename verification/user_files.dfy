/** The per-user upload folders `data/questions` and `data/syllabus`
    (app/api/answer_key_generation.py, app/api/syllabus_summary.py, with the
    writers of app/db/crud/answer_key_crud.py and syllabus_crud.py). Every
    upload is stored as "<user id>_<file name>"; a folder maps such names to
    the stored document and its modification time. */
module UserFiles {
  import opened Text
  import opened PdfText

  /** A stored upload and its modification time. */
  datatype StoredPaper = StoredPaper(doc: Document, mtime: int)

  /** What every stored name of a user starts with, and what the glob
      pattern "<user id>_*" matches. */
  function UserPrefix(user: nat): (p: string)
    ensures |p| >= 2 && p[|p| - 1] == '_'
    ensures forall k :: 0 <= k < |p| - 1 ==> IsDigit(p[k])
  {
    NatToString(user) + "_"
  }

  /** The name an upload is stored under: the user id, "_", then the
      original file name. */
  function UniqueName(user: nat, filename: string): (name: string)
    ensures UserPrefix(user) <= name && name[|UserPrefix(user)|..] == filename
  {
    UserPrefix(user) + filename
  }

  /** A user's prefix matches the names of that user's uploads and of no
      other user's — "1_" is not a prefix of "12_notes.pdf". */
  lemma {:induction false} PrefixOwnsName(u: nat, v: nat, filename: string)
    ensures UserPrefix(u) <= UniqueName(v, filename) <==> u == v
  {
    var a, b := NatToString(u), NatToString(v);
    var name := UniqueName(v, filename);
    if UserPrefix(u) <= name && |a| == |b| {
      assert a == UserPrefix(u)[..|a|] == name[..|b|] == b;
      NatToStringInjective(u, v);
    }
  }

  /** Different users, or different file names, never share a stored name. */
  lemma UniqueNameInjective(u: nat, f: string, v: nat, g: string)
    requires UniqueName(u, f) == UniqueName(v, g)
    ensures u == v && f == g
  {
    PrefixOwnsName(u, v, g);
  }

  /** An upload folder. */
  class Folder {
    var files: map<string, StoredPaper>

    constructor ()
      ensures files == map[]
    {
      files := map[];
    }

    /** `save_question_paper` / `save_syllabus_file`: write the document under
        `name` at time `now`; when the write raises (`fails`), nothing is
        written and the caller gets `false`. */
    method Save(name: string, doc: Document, now: int, fails: bool) returns (saved: bool)
      modifies this
      ensures saved == !fails
      ensures files == if fails then old(files) else old(files)[name := StoredPaper(doc, now)]
    {
      if fails {
        return false;
      }
      files := files[name := StoredPaper(doc, now)];
      return true;
    }
  }
}
