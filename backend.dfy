/** The small pure and imperative helpers of the face-recognition backend
    (app.py): stripping the `data:` prefix of an uploaded image, turning a
    person's name into a file name, choosing an image path no file already
    has, picking the best match among known faces, and the registry of people
    that `add_person` and `delete_person` update.

    The face library, image decoding, the disk and the JSON file are outside
    the model: their outcomes are parameters, and the set of existing files is
    a field of the registry. */
module FaceBackend {
  import opened Wrappers

  const PeopleDbPath: string := "people_database"
  const ConfidenceThreshold: real := 0.4

  // ---------------------------------------------------------------------
  // The data-URL prefix
  // ---------------------------------------------------------------------

  /** The position of the first comma, or `|s|` when there is none. */
  function CommaIndex(s: string): (i: nat)
    ensures i <= |s|
    ensures i < |s| ==> s[i] == ','
    ensures forall j :: 0 <= j < i ==> s[j] != ','
    ensures i == |s| <==> ',' !in s
  {
    if s == [] then 0
    else if s[0] == ',' then 0
    else 1 + CommaIndex(s[1..])
  }

  /** The fields joined back with commas. */
  function Join(fields: seq<string>): string
    requires |fields| >= 1
  {
    if |fields| == 1 then fields[0] else fields[0] + "," + Join(fields[1..])
  }

  /** `s.split(',')`: the comma-free fields between the commas. */
  function Split(s: string): (r: seq<string>)
    ensures |r| >= 1
    ensures forall k :: 0 <= k < |r| ==> ',' !in r[k]
    ensures |r| == 1 <==> ',' !in s
    decreases |s|
  {
    var i := CommaIndex(s);
    if i == |s| then [s] else [s[..i]] + Split(s[i + 1..])
  }

  lemma JoinCons(head: string, rest: seq<string>)
    requires |rest| >= 1
    ensures Join([head] + rest) == head + "," + Join(rest)
  {
    assert ([head] + rest)[1..] == rest;
  }

  lemma CutAtComma(s: string, i: nat)
    requires i < |s| && s[i] == ','
    ensures s == s[..i] + "," + s[i + 1..]
  {
    assert s[i..] == [s[i]] + s[i + 1..];
    assert s == s[..i] + s[i..];
  }

  /** Splitting loses nothing: the fields join back to the input. */
  lemma {:induction false} SplitJoin(s: string)
    ensures Join(Split(s)) == s
    decreases |s|
  {
    var i := CommaIndex(s);
    if i < |s| {
      var tail := s[i + 1..];
      SplitJoin(tail);
      JoinCons(s[..i], Split(tail));
      CutAtComma(s, i);
    }
  }

  /** `image_data.split(',')[1] if ',' in image_data else image_data`. */
  function StripDataUrl(s: string): (r: string)
    ensures ',' !in s ==> r == s
    ensures ',' !in r
    ensures ',' in s ==> |r| < |s|
  {
    var i := CommaIndex(s);
    if i == |s| then s
    else
      var tail := s[i + 1..];
      tail[..CommaIndex(tail)]
  }

  /** With a comma, the result is the second of the comma-separated fields:
      what lies between the first comma and the next one (or the end). */
  lemma StripIsSecondField(s: string)
    requires ',' in s
    ensures |Split(s)| >= 2 && StripDataUrl(s) == Split(s)[1]
  {
    var i := CommaIndex(s);
    var tail := s[i + 1..];
    var fields := Split(tail);
    assert Split(s) == [s[..i]] + fields;
    assert Split(s)[1] == fields[0];
    if CommaIndex(tail) == |tail| {
      assert fields == [tail];
    } else {
      assert fields[0] == tail[..CommaIndex(tail)];
    }
  }

  /** A data URL written as a header, a comma and a comma-free payload
      loses exactly its header. */
  lemma StripRemovesHeader(header: string, payload: string)
    requires ',' !in header && ',' !in payload
    ensures StripDataUrl(header + "," + payload) == payload
  {
    var s := header + "," + payload;
    assert s[|header|] == ',';
    assert CommaIndex(s) == |header|;
    assert s[|header| + 1..] == payload;
  }

  // ---------------------------------------------------------------------
  // The file name of a person's image
  // ---------------------------------------------------------------------

  /** `str.isalnum()` on one character (ASCII letters and digits). */
  predicate IsAlnum(c: char)
  {
    ('a' <= c <= 'z') || ('A' <= c <= 'Z') || ('0' <= c <= '9')
  }

  /** The characters the sanitiser keeps. */
  predicate Kept(c: char)
  {
    IsAlnum(c) || c == ' ' || c == '-' || c == '_'
  }

  /** The characters a sanitised name is made of. */
  predicate SafeChar(c: char)
  {
    IsAlnum(c) || c == '-' || c == '_'
  }

  /** The kept characters of `s`, in order. */
  function KeepOnly(s: string): (r: string)
    ensures |r| <= |s|
    ensures forall i :: 0 <= i < |r| ==> Kept(r[i])
  {
    if s == [] then []
    else (if Kept(s[0]) then [s[0]] else []) + KeepOnly(s[1..])
  }

  /** `rstrip()` of a string whose only white space is `' '`: the longest
      prefix that does not end in a space. */
  function TrimTrailingSpaces(s: string): (r: string)
    ensures |r| <= |s| && r == s[..|r|]
    ensures r == [] || r[|r| - 1] != ' '
    ensures forall i :: |r| <= i < |s| ==> s[i] == ' '
  {
    if s == [] || s[|s| - 1] != ' ' then s
    else TrimTrailingSpaces(s[..|s| - 1])
  }

  /** `replace(' ', '_')`. */
  function SpacesToUnderscores(s: string): (r: string)
    ensures |r| == |s|
    ensures forall i :: 0 <= i < |s| ==> r[i] == (if s[i] == ' ' then '_' else s[i])
  {
    seq(|s|, i requires 0 <= i < |s| => if s[i] == ' ' then '_' else s[i])
  }

  /** The sanitised name: kept characters, trailing spaces removed, inner
      spaces turned into underscores. */
  function SafeName(name: string): (r: string)
    ensures |r| <= |name|
    ensures forall i :: 0 <= i < |r| ==> SafeChar(r[i])
  {
    var kept := TrimTrailingSpaces(KeepOnly(name));
    assert forall i :: 0 <= i < |kept| ==> Kept(kept[i]);
    SpacesToUnderscores(kept)
  }

  lemma {:induction false} KeepOnlySafe(s: string)
    requires forall i :: 0 <= i < |s| ==> SafeChar(s[i])
    ensures KeepOnly(s) == s
  {
    if s != [] {
      KeepOnlySafe(s[1..]);
      assert s == [s[0]] + s[1..];
    }
  }

  /** A name is left as it is exactly when it is already made of safe
      characters. */
  lemma SafeNameFixpoint(name: string)
    ensures SafeName(name) == name <==> forall i :: 0 <= i < |name| ==> SafeChar(name[i])
  {
    if forall i :: 0 <= i < |name| ==> SafeChar(name[i]) {
      KeepOnlySafe(name);
      assert name == [] || name[|name| - 1] != ' ';
      assert TrimTrailingSpaces(name) == name;
      assert SpacesToUnderscores(name) == name;
    }
  }

  /** Sanitising a sanitised name changes nothing. */
  lemma SafeNameIdempotent(name: string)
    ensures SafeName(SafeName(name)) == SafeName(name)
  {
    SafeNameFixpoint(SafeName(name));
  }

  // ---------------------------------------------------------------------
  // The image path
  // ---------------------------------------------------------------------

  function DigitChar(d: nat): (c: char)
    requires d < 10
    ensures '0' <= c <= '9'
  {
    ('0' as int + d) as char
  }

  /** `str(n)` for a natural number. */
  function NatToString(n: nat): (r: string)
    ensures |r| >= 1
    ensures n >= 10 <==> |r| >= 2
    ensures forall i :: 0 <= i < |r| ==> '0' <= r[i] <= '9'
  {
    if n < 10 then [DigitChar(n)] else NatToString(n / 10) + [DigitChar(n % 10)]
  }

  /** Different numbers are written differently. */
  lemma {:induction false} NatToStringInjective(a: nat, b: nat)
    ensures NatToString(a) == NatToString(b) ==> a == b
  {
    if NatToString(a) == NatToString(b) && a >= 10 && b >= 10 {
      var ra, rb := NatToString(a), NatToString(b);
      assert ra[|ra| - 1] == rb[|rb| - 1];
      assert a % 10 == b % 10;
      assert ra[..|ra| - 1] == NatToString(a / 10);
      assert rb[..|rb| - 1] == NatToString(b / 10);
      NatToStringInjective(a / 10, b / 10);
    }
  }

  /** The `k`-th path tried for a sanitised name: `people_database/safe.png`
      first, then `people_database/safe_k.png` for k = 1, 2, ... */
  function ImagePath(safe: string, k: nat): (r: string)
    ensures |r| >= |PeopleDbPath| + 1 + |safe| + 4
    ensures r[..|PeopleDbPath| + 1 + |safe|] == PeopleDbPath + "/" + safe
    ensures r[|r| - 4..] == ".png"
  {
    if k == 0 then PeopleDbPath + "/" + safe + ".png"
    else PeopleDbPath + "/" + safe + "_" + NatToString(k) + ".png"
  }

  /** Different attempts give different paths. */
  lemma ImagePathInjective(safe: string, j: nat, k: nat)
    ensures ImagePath(safe, j) == ImagePath(safe, k) ==> j == k
  {
    var x := PeopleDbPath + "/" + safe + "_";
    if j > 0 && k > 0 && ImagePath(safe, j) == ImagePath(safe, k) {
      var dj, dk := NatToString(j), NatToString(k);
      assert ImagePath(safe, j) == x + dj + ".png";
      assert ImagePath(safe, k) == x + dk + ".png";
      assert |dj| == |dk|;
      assert dj == (x + dj + ".png")[|x|..|x| + |dj|];
      assert dk == (x + dk + ".png")[|x|..|x| + |dk|];
      NatToStringInjective(j, k);
    }
  }

  /** The paths of the first `n` attempts. */
  ghost function Tried(safe: string, n: nat): (r: set<string>)
    ensures forall j :: 0 <= j < n ==> ImagePath(safe, j) in r
  {
    if n == 0 then {} else Tried(safe, n - 1) + {ImagePath(safe, n - 1)}
  }

  lemma {:induction false} TriedOnly(safe: string, n: nat, p: string)
    ensures p in Tried(safe, n) ==> exists j :: 0 <= j < n && p == ImagePath(safe, j)
  {
    if n > 0 && p in Tried(safe, n) && p != ImagePath(safe, n - 1) {
      TriedOnly(safe, n - 1, p);
    }
  }

  /** The first `n` attempts name `n` different paths. */
  lemma {:induction false} TriedSize(safe: string, n: nat)
    ensures |Tried(safe, n)| == n
  {
    if n > 0 {
      TriedSize(safe, n - 1);
      var p := ImagePath(safe, n - 1);
      assert p !in Tried(safe, n - 1) by {
        TriedOnly(safe, n - 1, p);
        forall j | 0 <= j < n - 1 ensures ImagePath(safe, j) != p {
          ImagePathInjective(safe, j, n - 1);
        }
      }
      assert Tried(safe, n) == Tried(safe, n - 1) + {p};
    }
  }

  lemma {:induction false} SubsetSize(a: set<string>, b: set<string>)
    requires a <= b
    ensures |a| <= |b|
    decreases |a|
  {
    if a != {} {
      var x :| x in a;
      SubsetSize(a - {x}, b - {x});
    }
  }

  /** If the first `n` attempts are all taken, there are at least `n` files. */
  lemma TakenBound(safe: string, n: nat, existing: set<string>)
    requires forall j :: 0 <= j < n ==> ImagePath(safe, j) in existing
    ensures n <= |existing|
  {
    forall p | p in Tried(safe, n) ensures p in existing {
      TriedOnly(safe, n, p);
    }
    SubsetSize(Tried(safe, n), existing);
    TriedSize(safe, n);
  }

  /** The path search: the first attempt that names no existing file. The
      loop ends because a finite set of files can block only finitely many
      attempts. */
  method UniquePath(existing: set<string>, safe: string) returns (path: string)
    ensures path !in existing
    ensures exists k: nat :: (path == ImagePath(safe, k)
      && forall j :: 0 <= j < k ==> ImagePath(safe, j) in existing)
  {
    path := ImagePath(safe, 0);
    var counter := 1;
    while path in existing
      invariant counter >= 1 && path == ImagePath(safe, counter - 1)
      invariant forall j :: 0 <= j < counter - 1 ==> ImagePath(safe, j) in existing
      invariant counter - 1 <= |existing|
      decreases |existing| - (counter - 1)
    {
      TakenBound(safe, counter, existing);
      path := ImagePath(safe, counter);
      counter := counter + 1;
    }
    assert path == ImagePath(safe, counter - 1);
  }

  // ---------------------------------------------------------------------
  // The best match
  // ---------------------------------------------------------------------

  /** A known person and the distance of their stored face to the face in
      the frame, in the registry's iteration order. */
  datatype Candidate = Candidate(name: string, distance: real)

  /** Entry `i` is the match the loop settles on: under the threshold, strictly
      closer than every earlier entry and no farther than every later one. */
  predicate IsBest(known: seq<Candidate>, i: nat)
  {
    && i < |known|
    && known[i].distance < ConfidenceThreshold
    && (forall j :: 0 <= j < i ==> known[j].distance > known[i].distance)
    && (forall j :: i < j < |known| ==> known[j].distance >= known[i].distance)
  }

  /** There is at most one best entry. */
  lemma BestIsUnique(known: seq<Candidate>, i: nat, j: nat)
    requires IsBest(known, i) && IsBest(known, j)
    ensures i == j
  {
  }

  /** The best entry is a closest one among those under the threshold. */
  lemma BestIsClosest(known: seq<Candidate>, i: nat)
    requires IsBest(known, i)
    ensures forall j :: 0 <= j < |known| && known[j].distance < ConfidenceThreshold ==>
      known[i].distance <= known[j].distance
  {
  }

  /** The label of a face: the best entry's name and a confidence of one
      minus its distance, or "Unknown" with no confidence when nothing is
      under the threshold or the best entry's name is empty. */
  method BestMatch(known: seq<Candidate>) returns (name: string, confidence: Option<real>)
    ensures (forall j :: 0 <= j < |known| ==> known[j].distance >= ConfidenceThreshold) ==>
      name == "Unknown" && confidence == None
    ensures (exists i: nat :: IsBest(known, i) && known[i].name != "") <==> confidence.Some?
    ensures forall i: nat :: IsBest(known, i) ==>
      if known[i].name != "" then name == known[i].name && confidence == Some(1.0 - known[i].distance)
      else name == "Unknown" && confidence == None
  {
    var best: Option<nat> := None;
    var bestDistance: real := 0.0;
    for k := 0 to |known|
      invariant best.None? <==> forall j :: 0 <= j < k ==> known[j].distance >= ConfidenceThreshold
      invariant best.Some? ==> IsBest(known[..k], best.value) && bestDistance == known[best.value].distance
    {
      var d := known[k].distance;
      if (best.None? || d < bestDistance) && d < ConfidenceThreshold {
        best := Some(k);
        bestDistance := d;
      }
    }
    assert known[..|known|] == known;
    name, confidence := "Unknown", None;
    if best.Some? && known[best.value].name != "" {
      name := known[best.value].name;
      confidence := Some(1.0 - bestDistance);
    }
    forall i: nat | IsBest(known, i) ensures best == Some(i) {
      BestIsUnique(known, i, best.value);
    }
  }

  // ---------------------------------------------------------------------
  // The registry of people
  // ---------------------------------------------------------------------

  datatype Person = Person(name: string, imagePath: string)

  /** What decoding the uploaded image gives: an exception from the base64
      decoder, bytes that are not an image, or an image. */
  datatype Decoding = DecodeError(error: string) | NotAnImage | Decoded

  /** What computing the face embedding gives: an exception, no face, or an
      embedding. */
  datatype Embedding = EmbeddingError(error: string) | NoFace | Embedded

  datatype Reply = Reply(success: bool, message: string)

  class Registry {
    /** The people, by id. */
    var people: map<string, Person>
    /** The image files on disk. */
    var files: set<string>

    /** Every person's image is on disk, and no two people share one. */
    predicate Valid()
      reads this
    {
      && (forall id :: id in people ==> people[id].imagePath in files)
      && (forall a, b :: a in people && b in people && a != b ==> people[a].imagePath != people[b].imagePath)
    }

    constructor ()
      ensures Valid() && people == map[] && files == {}
    {
      people := map[];
      files := {};
    }

    /** `delete_person`: a known id loses its entry and its image file; an
        unknown id changes nothing. */
    method DeletePerson(id: string) returns (reply: Reply)
      requires Valid()
      modifies this
      ensures Valid()
      ensures reply.success <==> id in old(people)
      ensures reply.message == if reply.success then "Person deleted successfully" else "Person not found"
      ensures people == old(people) - {id}
      ensures files == if id in old(people) && old(people)[id].imagePath != ""
                       then old(files) - {old(people)[id].imagePath} else old(files)
    {
      if id in people {
        var imagePath := people[id].imagePath;
        if imagePath != "" && imagePath in files {
          files := files - {imagePath};
        }
        people := people - {id};
        reply := Reply(true, "Person deleted successfully");
      } else {
        reply := Reply(false, "Person not found");
      }
    }

    /** The `add_person` route and method. `name` and `image` are the
        request's fields (missing is `None`), `decoding` and `embedding` the
        outcomes of the image and face libraries, `id` the fresh identifier.
        The image file is written before the embedding is computed, so it
        stays on disk when that fails. */
    method AddPerson(name: Option<string>, image: Option<string>, decoding: Decoding,
                     embedding: Embedding, id: string)
      returns (reply: Reply)
      requires Valid()
      modifies this
      ensures Valid()
      ensures name.None? || name == Some("") || image.None? || image == Some("") ==>
        reply == Reply(false, "Name and image required") && people == old(people) && files == old(files)
      ensures reply.success <==>
        name.Some? && name.value != "" && image.Some? && image.value != ""
        && decoding.Decoded? && embedding.Embedded?
      ensures reply.success ==> reply.message == "Added " + name.value + " successfully"
      ensures !reply.success ==> people == old(people)
      ensures (!reply.success && !(name.Some? && name.value != "" && image.Some? && image.value != ""
                                   && decoding.Decoded?)) ==> files == old(files)
      ensures name.Some? && name.value != "" && image.Some? && image.value != "" && decoding.Decoded? ==>
        exists path ::
          && path !in old(files)
          && (exists k: nat :: path == ImagePath(SafeName(name.value), k)
                && forall j :: 0 <= j < k ==> ImagePath(SafeName(name.value), j) in old(files))
          && files == old(files) + {path}
          && people == (if embedding.Embedded? then old(people)[id := Person(name.value, path)]
                        else old(people))
    {
      if name.None? || name.value == "" || image.None? || image.value == "" {
        return Reply(false, "Name and image required");
      }
      match decoding {
        case DecodeError(e) =>
          return Reply(false, "Error adding person: " + e);
        case NotAnImage =>
          return Reply(false, "Invalid image data");
        case Decoded =>
      }
      var safe := SafeName(name.value);
      var path := UniquePath(files, safe);
      files := files + {path};
      match embedding {
        case Embedded =>
          people := people[id := Person(name.value, path)];
          reply := Reply(true, "Added " + name.value + " successfully");
        case NoFace =>
          reply := Reply(false, "Could not detect face in image");
        case EmbeddingError(e) =>
          reply := Reply(false, "Error processing face: " + e);
      }
    }
  }
}
