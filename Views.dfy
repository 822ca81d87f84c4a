/**
 * The request handlers of PM_App/views.py that hold logic of their own:
 * the profile update of dashboard_view, the patient upsert of add_patient,
 * the next_id it offers on GET, the image defaults of get_patients_json and
 * the response of verify_patient_api.  The patient table is a map from
 * patient_id to the stored row; make_password, build_absolute_uri and the
 * storage's .url are function parameters.
 */
module Views {
  import opened Wrappers
  import opened Models

  /** Python truthiness of an optional text: present and non-empty. */
  predicate Truthy(x: Option<string>) {
    x.Some? && x.value != ""
  }

  /* ---------- dashboard_view (views.py:33-53) ---------- */

  /** The logged-in CustomUser. */
  class User {
    var username: string
    var fullname: Option<string>
    var password: string
    var profilePicture: Option<string>

    constructor (username: string, fullname: Option<string>, password: string, profilePicture: Option<string>)
      ensures this.username == username && this.fullname == fullname
      ensures this.password == password && this.profilePicture == profilePicture
    {
      this.username := username;
      this.fullname := fullname;
      this.password := password;
      this.profilePicture := profilePicture;
    }

    /**
     * The POST branch of dashboard_view: each submitted value that is
     * present and non-empty replaces its field (the password through
     * make_password); a field not submitted, or submitted empty, keeps its
     * value.
     */
    method UpdateProfile(username: Option<string>, fullname: Option<string>, password: Option<string>,
                         profilePicture: Option<string>, makePassword: string -> string)
      modifies this
      ensures this.username == if Truthy(username) then username.value else old(this.username)
      ensures this.fullname == if Truthy(fullname) then fullname else old(this.fullname)
      ensures this.password == if Truthy(password) then makePassword(password.value) else old(this.password)
      ensures this.profilePicture == if Truthy(profilePicture) then profilePicture else old(this.profilePicture)
    {
      if Truthy(username) {
        this.username := username.value;
      }
      if Truthy(fullname) {
        this.fullname := fullname;
      }
      if Truthy(password) {
        this.password := makePassword(password.value);
      }
      if Truthy(profilePicture) {
        this.profilePicture := profilePicture;
      }
    }
  }

  /* ---------- the patient table ---------- */

  /** A stored Patient: its primary key and its columns. */
  datatype Stored = Stored(pk: nat, data: PatientData)

  /**
   * The Patient table keyed by patient_id, and the primary key of the row
   * that Patient.objects.order_by('-id').first() returns (None when empty).
   */
  datatype PatientTable = PatientTable(rows: map<string, Stored>, last: Option<nat>)

  /** `last` is the largest primary key in the table. */
  ghost predicate LastIsLargest(db: PatientTable) {
    && (db.last.None? <==> db.rows == map[])
    && (forall id :: id in db.rows ==> db.last.Some? && db.rows[id].pk <= db.last.value)
    && (db.last.Some? ==> exists id :: id in db.rows && db.rows[id].pk == db.last.value)
  }

  /** Every stored patient_id is the one Patient.save generated from its row's primary key. */
  ghost predicate IdsGenerated(db: PatientTable) {
    forall id :: id in db.rows ==> id == FormatPatientId(db.rows[id].pk)
  }

  /* ---------- add_patient (views.py:81-133) ---------- */

  /** The outcome of update_or_create: the new table, the saved row's patient_id, and whether it was created. */
  datatype Saved = Saved(table: PatientTable, patientId: string, created: bool)

  /**
   * The id offered on GET (views.py:130-132): "PT-2026" and the zero-padded
   * number one past the largest primary key, or 1 for an empty table; its
   * digits read back as that number.
   */
  function NextId(db: PatientTable): (id: string)
    ensures |id| >= 11 && id[..7] == IdPrefix && IsDigits(id[7..])
    ensures DigitsValue(id[7..]) == NextNumber(db.last)
    ensures db.last.Some? ==> DigitsValue(id[7..]) > db.last.value
  {
    PatientIdNumber(NextNumber(db.last));
    FormatPatientId(NextNumber(db.last))
  }

  /**
   * The posted id names a stored row whose patient_id is empty: update_or_create
   * finds that row, and Patient.save then sees a falsy patient_id and replaces it
   * (models.py:37-40).
   */
  predicate Regenerates(db: PatientTable, postedId: Option<string>) {
    postedId == Some("") && "" in db.rows
  }

  /**
   * The POST branch of add_patient (views.py:83-102):
   * Patient.objects.update_or_create(patient_id=posted, defaults=d).  A row
   * with the posted id is updated in place and keeps its primary key; it also
   * keeps its id unless that id is empty, in which case Patient.save gives it
   * the generated one.  Otherwise one row is created under the next primary
   * key, with the posted id when it is non-empty and else with the id
   * Patient.save generates.  A generated id that is already taken violates the
   * unique constraint on patient_id.
   */
  function AddPatient(db: PatientTable, postedId: Option<string>, d: PatientData): (r: Result<Saved, string>)
    ensures r.Success? ==>
      && r.value.patientId in r.value.table.rows
      && r.value.table.rows[r.value.patientId].data == d
      && (forall id :: id in db.rows && id != r.value.patientId && Some(id) != postedId ==>
            id in r.value.table.rows && r.value.table.rows[id] == db.rows[id])
    ensures r.Success? && !Regenerates(db, postedId) ==>
      r.value.table.rows.Keys == db.rows.Keys + {r.value.patientId}
    ensures r.Success? ==> (r.value.created <==> r.value.patientId !in db.rows && !Regenerates(db, postedId))
    ensures postedId.Some? && postedId.value in db.rows && Truthy(postedId) ==>
      r.Success? && !r.value.created && r.value.patientId == postedId.value && r.value.table.last == db.last
      && r.value.table.rows[postedId.value].pk == db.rows[postedId.value].pk
    ensures Regenerates(db, postedId) ==>
      (r.Failure? <==> NextId(db) in db.rows) &&
      (r.Success? ==>
        && !r.value.created && r.value.patientId == NextId(db) && r.value.table.last == db.last
        && r.value.table.rows.Keys == db.rows.Keys - {""} + {NextId(db)}
        && r.value.table.rows[NextId(db)].pk == db.rows[""].pk)
    ensures !(postedId.Some? && postedId.value in db.rows) && Truthy(postedId) ==>
      r.Success? && r.value.created && r.value.patientId == postedId.value
    ensures !(postedId.Some? && postedId.value in db.rows) && !Truthy(postedId) ==>
      (r.Failure? <==> NextId(db) in db.rows) &&
      (r.Success? ==> r.value.created && r.value.patientId == NextId(db))
    ensures r.Success? && r.value.created ==>
      r.value.table.rows[r.value.patientId].pk == NextNumber(db.last) && r.value.table.last == Some(NextNumber(db.last))
    ensures r.Failure? ==> r.error == "IntegrityError"
  {
    if postedId.Some? && postedId.value in db.rows then
      var row := db.rows[postedId.value].(data := d);
      if Truthy(postedId) then
        Success(Saved(db.(rows := db.rows[postedId.value := row]), postedId.value, false))
      else
        var id := FormatPatientId(NextNumber(db.last));
        if id in db.rows then Failure("IntegrityError")
        else Success(Saved(db.(rows := (db.rows - {""})[id := row]), id, false))
    else
      var pk := NextNumber(db.last);
      var id := if Truthy(postedId) then postedId.value else FormatPatientId(pk);
      if id in db.rows then Failure("IntegrityError")
      else Success(Saved(PatientTable(db.rows[id := Stored(pk, d)], Some(pk)), id, true))
  }

  /** An update keeps the number of patients; a creation adds exactly one. */
  lemma AddPatientCount(db: PatientTable, postedId: Option<string>, d: PatientData)
    requires AddPatient(db, postedId, d).Success?
    ensures var s := AddPatient(db, postedId, d).value;
      |s.table.rows| == if s.created then |db.rows| + 1 else |db.rows|
  {
    var s := AddPatient(db, postedId, d).value;
    if s.created {
      assert s.table.rows.Keys == db.rows.Keys + {s.patientId};
      assert |s.table.rows.Keys| == |db.rows.Keys| + 1;
    } else if Regenerates(db, postedId) {
      var rest := db.rows.Keys - {""};
      assert |rest| == |db.rows.Keys| - 1;
      assert s.table.rows.Keys == rest + {s.patientId};
    } else {
      assert s.table.rows.Keys == db.rows.Keys;
    }
  }

  /** add_patient keeps `last` the largest primary key. */
  lemma AddPatientKeepsLast(db: PatientTable, postedId: Option<string>, d: PatientData)
    requires LastIsLargest(db)
    requires AddPatient(db, postedId, d).Success?
    ensures LastIsLargest(AddPatient(db, postedId, d).value.table)
  {
    var s := AddPatient(db, postedId, d).value;
    var t := s.table;
    if s.created {
      assert t.rows[s.patientId].pk == t.last.value;
    } else {
      var id :| id in db.rows && db.rows[id].pk == db.last.value;
      if Regenerates(db, postedId) && id == "" {
        assert t.rows[s.patientId].pk == t.last.value;
      } else {
        assert t.rows[id].pk == t.last.value;
      }
    }
  }

  /**
   * When every stored id was generated by Patient.save and `last` is the
   * largest primary key, a save without a posted id never collides, and the
   * table stays one of generated ids.
   */
  lemma GeneratedIdsNeverCollide(db: PatientTable, postedId: Option<string>, d: PatientData)
    requires LastIsLargest(db) && IdsGenerated(db)
    requires !Truthy(postedId)
    ensures AddPatient(db, postedId, d).Success?
    ensures IdsGenerated(AddPatient(db, postedId, d).value.table)
  {
    assert forall id :: id in db.rows ==> |id| >= 11;
    assert !(postedId.Some? && postedId.value in db.rows);
    var keys := set id | id in db.rows :: db.rows[id].pk;
    if db.last.Some? {
      var id0 :| id0 in db.rows && db.rows[id0].pk == db.last.value;
      assert db.last.value in keys;
    }
    NextIdIsNew(keys, db.last);
    var next := FormatPatientId(NextNumber(db.last));
    forall id | id in db.rows
      ensures id != next
    {
      assert db.rows[id].pk in keys;
    }
  }

  /* ---------- get_patients_json (views.py:155-173) ---------- */

  /** One dict of Patient.objects.all().values(...): the patient_id and the selected columns. */
  datatype PatientValues = PatientValues(patientId: string, data: PatientData)

  const DefaultImage: string := "/static/img/default.png"

  /** The profile_image a record is given: the absolute URI of a stored path, the default image otherwise. */
  function ImageUrl(image: Option<string>, absoluteUri: string -> string): (url: string)
    ensures !Truthy(image) ==> url == DefaultImage
    ensures (forall u :: absoluteUri(u) != []) ==> url != []
  {
    if Truthy(image) then absoluteUri(image.value) else DefaultImage
  }

  /**
   * The loop of get_patients_json: every record keeps its place and all its
   * other values, and its profile_image becomes the absolute URI of the
   * stored path, or exactly the default image when none is stored.  With a
   * build_absolute_uri that never returns the empty text, every record
   * ends up with a non-empty profile_image.
   */
  method DefaultImages(patients: seq<PatientValues>, absoluteUri: string -> string) returns (out: seq<PatientValues>)
    ensures |out| == |patients|
    ensures forall i :: 0 <= i < |out| ==>
      out[i].patientId == patients[i].patientId &&
      out[i].data.(profileImage := patients[i].data.profileImage) == patients[i].data
    ensures forall i :: 0 <= i < |out| ==>
      out[i].data.profileImage == Some(ImageUrl(patients[i].data.profileImage, absoluteUri))
    ensures forall i :: 0 <= i < |out| && !Truthy(patients[i].data.profileImage) ==>
      out[i].data.profileImage == Some(DefaultImage)
    ensures (forall s :: absoluteUri(s) != "") ==> forall i :: 0 <= i < |out| ==> Truthy(out[i].data.profileImage)
  {
    out := patients;
    for k := 0 to |out|
      invariant |out| == |patients|
      invariant forall i :: 0 <= i < k ==>
        out[i] == patients[i].(data := patients[i].data.(profileImage := Some(ImageUrl(patients[i].data.profileImage, absoluteUri))))
      invariant forall i :: k <= i < |out| ==> out[i] == patients[i]
    {
      var p := out[k];
      if Truthy(p.data.profileImage) {
        out := out[k := p.(data := p.data.(profileImage := Some(absoluteUri(p.data.profileImage.value))))];
      } else {
        out := out[k := p.(data := p.data.(profileImage := Some(DefaultImage)))];
      }
    }
  }

  /* ---------- verify_patient_api (views.py:55-78) ---------- */

  /** The "patient" object of verify_patient_api's response. */
  datatype Verified = Verified(
    patientId: string,
    firstname: string,
    middlename: string,
    lastname: string,
    address: string,
    birthdate: string,
    age: int,
    gender: string,
    contactNumber: string,
    bloodPressure: Option<string>,
    weight: Option<real>,
    height: Option<real>,
    profileImage: string)

  /**
   * verify_patient_api: None (a 404) when no patient has the id; otherwise
   * the stored values with a null middle name sent as "" and the image's
   * storage URL, or "" when there is no image.
   */
  function VerifyPatient(db: PatientTable, patientId: string, storageUrl: string -> string): (r: Option<Verified>)
    ensures r.None? <==> patientId !in db.rows
    ensures r.Some? ==>
      var p := db.rows[patientId].data;
      && r.value.patientId == patientId
      && r.value.middlename == (if p.middlename.Some? then p.middlename.value else "")
      && r.value.profileImage == (if Truthy(p.profileImage) then storageUrl(p.profileImage.value) else "")
      && r.value.firstname == p.firstname && r.value.lastname == p.lastname
      && r.value.age == p.age && r.value.contactNumber == p.contactNumber
      && r.value.address == p.address && r.value.birthdate == p.birthdate && r.value.gender == p.gender
      && r.value.bloodPressure == p.bloodPressure && r.value.weight == p.weight && r.value.height == p.height
  {
    if patientId !in db.rows then None
    else
      var p := db.rows[patientId].data;
      Some(Verified(patientId, p.firstname, p.middlename.GetOr(""), p.lastname, p.address, p.birthdate,
                    p.age, p.gender, p.contactNumber, p.bloodPressure, p.weight, p.height,
                    if Truthy(p.profileImage) then storageUrl(p.profileImage.value) else ""))
  }

  /** A patient just saved can be verified under the id the save returned, with the values saved. */
  lemma VerifyAfterAdd(db: PatientTable, postedId: Option<string>, d: PatientData, storageUrl: string -> string)
    requires AddPatient(db, postedId, d).Success?
    ensures var s := AddPatient(db, postedId, d).value;
      var v := VerifyPatient(s.table, s.patientId, storageUrl);
      v.Some? && v.value.firstname == d.firstname && v.value.lastname == d.lastname
      && v.value.middlename == d.middlename.GetOr("")
  {
  }
}
