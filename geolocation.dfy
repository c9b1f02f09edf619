/**
 * The location services of the health-information frontend: the doctor and
 * hospital records, the compiled-in Aligarh roster of specialist doctors,
 * the Haversine distance, the specialist lookup and the hospital listing.
 *
 * Coordinates are real numbers. The distance the lookup uses is a
 * parameter `dist`, so that every property of the lookup holds for any
 * distance; `CalculateDistance` keeps the structure of the Haversine
 * formula with the transcendental functions supplied as a `MathLib`.
 */
module Geolocation {
  import opened JsArray
  import opened JsString

  datatype Location = Location(lat: real, lng: real)

  datatype Hospital = Hospital(name: string, location: Location, contact: string)

  datatype Doctor = Doctor(name: string, location: Location, specialization: string, contact: string)

  /** A distance in kilometres between two locations. */
  type Distance = (Location, Location) -> real

  /** The catchment radius of the lookup, in kilometres; the test is inclusive. */
  const RadiusKm: real := 5.0

  /** The mean radius of the earth, in kilometres. */
  const EarthRadiusKm: real := 6371.0

  // ---------------------------------------------------------------------
  // Distance

  /** The parts of `Math` the Haversine formula uses. */
  datatype MathLib = MathLib(
    sin: real -> real,
    cos: real -> real,
    atan2: (real, real) -> real,
    sqrt: real -> real,
    pi: real)

  /** The identities of the floating-point library that the same-point case needs. */
  ghost predicate ZeroIdentities(m: MathLib)
  {
    && m.sin(0.0) == 0.0
    && m.sqrt(0.0) == 0.0
    && (forall x :: 0.0 <= x ==> 0.0 <= m.sqrt(x))
    && (forall y :: 0.0 <= y ==> m.atan2(0.0, y) == 0.0)
  }

  /** Sine is odd, as it is for the floating-point library on every finite argument. */
  ghost predicate SineIsOdd(m: MathLib)
  {
    forall x :: m.sin(-x) == -m.sin(x)
  }

  /** `toRad`: degrees to radians. */
  function ToRad(m: MathLib, value: real): real
  {
    value * m.pi / 180.0
  }

  /** `sin(d / 2) * sin(d / 2)`, the haversine of an angle `d`. */
  function HalfAngleSquare(m: MathLib, d: real): real
  {
    m.sin(d / 2.0) * m.sin(d / 2.0)
  }

  /** The haversine of the central angle, `a` in `calculateDistance`. */
  function HaversineA(m: MathLib, loc1: Location, loc2: Location): real
  {
    var dLat := ToRad(m, loc2.lat - loc1.lat);
    var dLng := ToRad(m, loc2.lng - loc1.lng);
    HalfAngleSquare(m, dLat) + m.cos(ToRad(m, loc1.lat)) * m.cos(ToRad(m, loc2.lat)) * HalfAngleSquare(m, dLng)
  }

  /** `calculateDistance`: the Haversine great-circle distance, in kilometres. */
  function CalculateDistance(m: MathLib, loc1: Location, loc2: Location): real
  {
    var a := HaversineA(m, loc1, loc2);
    var c := 2.0 * m.atan2(m.sqrt(a), m.sqrt(1.0 - a));
    EarthRadiusKm * c
  }

  function Haversine(m: MathLib): Distance
  {
    (loc1, loc2) => CalculateDistance(m, loc1, loc2)
  }

  /** A distance that is zero between a point and itself. */
  ghost predicate ZeroAtSamePoint(dist: Distance)
  {
    forall loc :: dist(loc, loc) == 0.0
  }

  /** `toRad(0)` is 0, whatever the value of pi. */
  lemma ToRadZero(m: MathLib)
    ensures ToRad(m, 0.0) == 0.0
  {
  }

  /** Equal points are at distance 0: both deltas are 0, so `a` and `c` are 0. */
  lemma HaversineSamePoint(m: MathLib)
    requires ZeroIdentities(m)
    ensures ZeroAtSamePoint(Haversine(m))
  {
    forall loc: Location ensures Haversine(m)(loc, loc) == 0.0 {
      ToRadZero(m);
      var cosProduct := m.cos(ToRad(m, loc.lat)) * m.cos(ToRad(m, loc.lat));
      assert cosProduct * 0.0 * 0.0 == 0.0;
      assert m.sqrt(1.0 - 0.0) >= 0.0;
    }
  }

  /** Swapping the two coordinates negates the angle in radians. */
  lemma ToRadNegates(m: MathLib, x: real, y: real)
    ensures ToRad(m, y - x) == -ToRad(m, x - y)
  {
    assert y - x == -(x - y);
    assert (-(x - y)) * m.pi == -((x - y) * m.pi);
  }

  /** With an odd sine, the haversine of `-d` is the haversine of `d`. */
  lemma HalfAngleSquareEven(m: MathLib, d: real)
    requires SineIsOdd(m)
    ensures HalfAngleSquare(m, -d) == HalfAngleSquare(m, d)
  {
    var h := d / 2.0;
    assert -d / 2.0 == -h;
    assert m.sin(-h) == -m.sin(h);
    assert (-m.sin(h)) * (-m.sin(h)) == m.sin(h) * m.sin(h);
  }

  /** The distance from A to B is the distance from B to A. */
  lemma HaversineSymmetric(m: MathLib, loc1: Location, loc2: Location)
    requires SineIsOdd(m)
    ensures CalculateDistance(m, loc1, loc2) == CalculateDistance(m, loc2, loc1)
  {
    var dLat, dLng := ToRad(m, loc2.lat - loc1.lat), ToRad(m, loc2.lng - loc1.lng);
    ToRadNegates(m, loc1.lat, loc2.lat);
    ToRadNegates(m, loc1.lng, loc2.lng);
    HalfAngleSquareEven(m, dLat);
    HalfAngleSquareEven(m, dLng);
    var c1, c2 := m.cos(ToRad(m, loc1.lat)), m.cos(ToRad(m, loc2.lat));
    assert c1 * c2 == c2 * c1;
    assert HaversineA(m, loc1, loc2) == HaversineA(m, loc2, loc1);
  }

  // ---------------------------------------------------------------------
  // The roster and the specialist lookup

  const AnikaVerma := Doctor("Dr. Anika Verma", Location(27.9055, 78.0862), "Cardiologist", "987-654-3210")
  const RajeshKhanna := Doctor("Dr. Rajesh Khanna", Location(27.8994, 78.0795), "Dermatologist", "987-987-9870")
  const PriyaSharma := Doctor("Dr. Priya Sharma", Location(27.8824, 78.0665), "Neurologist", "876-543-2109")
  const AmitKumar := Doctor("Dr. Amit Kumar", Location(27.9013, 78.0843), "Pediatrician", "876-876-8760")
  const SunitaRao := Doctor("Dr. Sunita Rao", Location(27.8803, 78.0699), "General Physician", "765-432-1098")
  const VikramSingh := Doctor("Dr. Vikram Singh", Location(27.9045, 78.0852), "Cardiologist", "999-888-7770")
  const DeepaPatel := Doctor("Dr. Deepa Patel", Location(27.8984, 78.0775), "Dermatologist", "777-666-5550")
  const RahulGupta := Doctor("Dr. Rahul Gupta", Location(27.8794, 78.0635), "Neurologist", "909-808-7070")
  const MeeraIyer := Doctor("Dr. Meera Iyer", Location(27.8983, 78.0813), "Pediatrician", "989-878-7670")
  const SanjayVerma := Doctor("Dr. Sanjay Verma", Location(27.8773, 78.0669), "General Physician", "898-979-9690")

  /** `allDoctors`, in the order the lookup iterates it. */
  const AllDoctors: seq<Doctor> := [
    AnikaVerma, RajeshKhanna, PriyaSharma, AmitKumar, SunitaRao,
    VikramSingh, DeepaPatel, RahulGupta, MeeraIyer, SanjayVerma
  ]

  /** The first filter callback: the specializations agree after lower-casing. */
  function HasSpecialization(specialization: string): Doctor -> bool
  {
    (doctor: Doctor) => Lower(doctor.specialization) == Lower(specialization)
  }

  /** The second filter callback: the doctor lies within the radius, boundary included. */
  function WithinRadius(dist: Distance, location: Location): Doctor -> bool
  {
    (doctor: Doctor) => dist(location, doctor.location) <= RadiusKm
  }

  /** The map callback: a field-for-field copy of a roster entry. */
  function CopyDoctor(doctor: Doctor): Doctor
  {
    Doctor(doctor.name, doctor.location, doctor.specialization, doctor.contact)
  }

  /**
   * The copy at the end of the lookup gives records equal field for field to
   * the ones it was given, in the same order.
   */
  lemma ProjectionIsIdentity(doctors: seq<Doctor>)
    ensures Map(CopyDoctor, doctors) == doctors
  {
  }

  /**
   * The filter/filter/map pipeline of the lookup over a given roster: a doctor
   * is kept exactly when it is on the roster, has the requested
   * specialization up to case, and lies within 5 km of `location`.
   */
  function FindSpecialists(roster: seq<Doctor>, dist: Distance, location: Location, specialization: string): (r: seq<Doctor>)
    ensures forall d :: d in r <==>
              d in roster && Lower(d.specialization) == Lower(specialization) && dist(location, d.location) <= RadiusKm
  {
    var bySpecialization := Filter(HasSpecialization(specialization), roster);
    var nearby := Filter(WithinRadius(dist, location), bySpecialization);
    ProjectionIsIdentity(nearby);
    FilterMembership(HasSpecialization(specialization), roster);
    FilterMembership(WithinRadius(dist, location), bySpecialization);
    Map(CopyDoctor, nearby)
  }

  /** `getSpecialistDoctors`: the pipeline over the compiled-in roster. */
  function GetSpecialistDoctors(dist: Distance, location: Location, specialization: string): (r: seq<Doctor>)
    ensures forall d :: d in r <==>
              d in AllDoctors && Lower(d.specialization) == Lower(specialization) && dist(location, d.location) <= RadiusKm
  {
    FindSpecialists(AllDoctors, dist, location, specialization)
  }

  /** The two chained filters are one filter on the conjunction of their tests. */
  lemma SingleFilter(roster: seq<Doctor>, dist: Distance, location: Location, specialization: string)
    ensures FindSpecialists(roster, dist, location, specialization)
      == Filter(Both(HasSpecialization(specialization), WithinRadius(dist, location)), roster)
  {
    var bySpecialization := Filter(HasSpecialization(specialization), roster);
    ProjectionIsIdentity(Filter(WithinRadius(dist, location), bySpecialization));
    FilterFilter(HasSpecialization(specialization), WithinRadius(dist, location), roster);
  }

  /**
   * For every roster, repeated entries included, the result is the matching
   * entries in roster order: an order-preserving subsequence holding each
   * matching entry as often as the roster does, and nothing else.
   */
  lemma InRosterOrder(roster: seq<Doctor>, dist: Distance, location: Location, specialization: string)
    ensures IsSubsequence(FindSpecialists(roster, dist, location, specialization), roster)
    ensures forall d ::
              multiset(FindSpecialists(roster, dist, location, specialization))[d] ==
              (if Lower(d.specialization) == Lower(specialization) && dist(location, d.location) <= RadiusKm
               then multiset(roster)[d] else 0)
  {
    var keep := Both(HasSpecialization(specialization), WithinRadius(dist, location));
    SingleFilter(roster, dist, location, specialization);
    FilterIsSubsequence(keep, roster);
    FilterCount(keep, roster);
  }

  /** A roster without duplicates gives a result without duplicates. */
  lemma DistinctRosterDistinctResult(roster: seq<Doctor>, dist: Distance, location: Location, specialization: string)
    requires NoDuplicates(roster)
    ensures NoDuplicates(FindSpecialists(roster, dist, location, specialization))
  {
    var keep := Both(HasSpecialization(specialization), WithinRadius(dist, location));
    SingleFilter(roster, dist, location, specialization);
    FilterNoDuplicates(keep, roster);
  }

  /** Specializations equal up to case give the same result. */
  lemma CaseInsensitive(roster: seq<Doctor>, dist: Distance, location: Location, s1: string, s2: string)
    requires Lower(s1) == Lower(s2)
    ensures FindSpecialists(roster, dist, location, s1) == FindSpecialists(roster, dist, location, s2)
  {
    FilterCongruent(HasSpecialization(s1), HasSpecialization(s2), roster);
  }

  /** The roster holds no entry twice. */
  lemma RosterDistinct()
    ensures NoDuplicates(AllDoctors)
  {
    var names := seq(|AllDoctors|, i requires 0 <= i < |AllDoctors| => AllDoctors[i].name);
    assert names == [
      "Dr. Anika Verma", "Dr. Rajesh Khanna", "Dr. Priya Sharma", "Dr. Amit Kumar", "Dr. Sunita Rao",
      "Dr. Vikram Singh", "Dr. Deepa Patel", "Dr. Rahul Gupta", "Dr. Meera Iyer", "Dr. Sanjay Verma"
    ];
  }

  /** The lookup returns the matching roster doctors in roster order, each once. */
  lemma SpecialistDoctorsInRosterOrder(dist: Distance, location: Location, specialization: string)
    ensures IsSubsequence(GetSpecialistDoctors(dist, location, specialization), AllDoctors)
    ensures NoDuplicates(GetSpecialistDoctors(dist, location, specialization))
    ensures GetSpecialistDoctors(dist, location, specialization)
      == Filter(Both(HasSpecialization(specialization), WithinRadius(dist, location)), AllDoctors)
  {
    RosterDistinct();
    InRosterOrder(AllDoctors, dist, location, specialization);
    DistinctRosterDistinctResult(AllDoctors, dist, location, specialization);
    SingleFilter(AllDoctors, dist, location, specialization);
  }

  /** The radius test is inclusive: a matching doctor at exactly 5 km is kept, one beyond it is dropped. */
  lemma RadiusIsInclusive(dist: Distance, location: Location, specialization: string, doctor: Doctor)
    requires doctor in AllDoctors && Lower(doctor.specialization) == Lower(specialization)
    ensures dist(location, doctor.location) == RadiusKm ==> doctor in GetSpecialistDoctors(dist, location, specialization)
    ensures dist(location, doctor.location) > RadiusKm ==> doctor !in GetSpecialistDoctors(dist, location, specialization)
  {
  }

  lemma LowerCardiologist()
    ensures Lower("Cardiologist") == "cardiologist"
    ensures Lower("cardiologist") == "cardiologist"
  {
    var s, t := "Cardiologist", "cardiologist";
    var r := Lower(s);
    assert r[0] == t[0];
    forall i | 1 <= i < |s| ensures r[i] == t[i] {
      assert s[i] == t[i] && !IsUpper(s[i]);
    }
    LowerFixpoint(t);
  }

  /** "Cardiologist" and "cardiologist" select the same doctors. */
  lemma CardiologistAnyCase(dist: Distance, location: Location)
    ensures GetSpecialistDoctors(dist, location, "Cardiologist") == GetSpecialistDoctors(dist, location, "cardiologist")
  {
    LowerCardiologist();
    CaseInsensitive(AllDoctors, dist, location, "Cardiologist", "cardiologist");
  }

  /** A specialization no roster entry has gives the empty result, which is not a failure. */
  lemma AbsentSpecializationEmpty(roster: seq<Doctor>, dist: Distance, location: Location, specialization: string)
    requires forall d :: d in roster ==> Lower(d.specialization) != Lower(specialization)
    ensures FindSpecialists(roster, dist, location, specialization) == []
  {
  }

  /** No roster entry is an oncologist, so asking for one gives nothing wherever the user is. */
  lemma OncologistEmpty(dist: Distance, location: Location)
    ensures GetSpecialistDoctors(dist, location, "Oncologist") == []
  {
    forall d | d in AllDoctors ensures Lower(d.specialization) != Lower("Oncologist") {
      assert |d.specialization| != |"Oncologist"|;
    }
    AbsentSpecializationEmpty(AllDoctors, dist, location, "Oncologist");
  }

  /** A user farther than 5 km from every roster entry gets nothing, whatever the specialization. */
  lemma NothingNearbyEmpty(roster: seq<Doctor>, dist: Distance, location: Location, specialization: string)
    requires forall d :: d in roster ==> dist(location, d.location) > RadiusKm
    ensures FindSpecialists(roster, dist, location, specialization) == []
  {
  }

  /** The query point of the concrete scenario: Dr. Vikram Singh's own coordinates. */
  const QueryPoint := Location(27.9045, 78.0852)

  /** At his own coordinates a query for "cardiologist" finds Dr. Vikram Singh. */
  lemma CardiologyQueryFindsVikramSingh(dist: Distance)
    requires ZeroAtSamePoint(dist)
    ensures VikramSingh in GetSpecialistDoctors(dist, QueryPoint, "cardiologist")
  {
    LowerCardiologist();
    assert VikramSingh.location == QueryPoint;
    assert dist(QueryPoint, QueryPoint) == 0.0;
    assert AllDoctors[5] == VikramSingh;
  }

  /** A query for "cardiologist" never returns a dermatologist, wherever it is made and whatever the distance. */
  lemma CardiologyQueryNoDermatologist(dist: Distance, location: Location)
    ensures forall d :: d in GetSpecialistDoctors(dist, location, "cardiologist") ==>
              d.specialization != "Dermatologist"
    ensures RajeshKhanna !in GetSpecialistDoctors(dist, location, "cardiologist")
  {
    forall d | d in GetSpecialistDoctors(dist, location, "cardiologist")
      ensures d.specialization != "Dermatologist"
    {
      assert |Lower(d.specialization)| == |"cardiologist"|;
    }
  }

  /** The same query with the Haversine distance, given the library identities at zero. */
  lemma CardiologyQueryHaversine(m: MathLib)
    requires ZeroIdentities(m)
    ensures VikramSingh in GetSpecialistDoctors(Haversine(m), QueryPoint, "cardiologist")
    ensures RajeshKhanna !in GetSpecialistDoctors(Haversine(m), QueryPoint, "cardiologist")
  {
    HaversineSamePoint(m);
    CardiologyQueryFindsVikramSingh(Haversine(m));
    CardiologyQueryNoDermatologist(Haversine(m), QueryPoint);
  }

  // ---------------------------------------------------------------------
  // The hospital listing

  const NearbyHospitals: seq<Hospital> := [
    Hospital("Jawaharlal Nehru Medical College, AMU", Location(27.9035, 78.0842), "0571-2700920"),
    Hospital("Aligarh Muslim University Health Service", Location(27.8974, 78.0785), "N/A"),
    Hospital("Private Hospital Aligarh", Location(27.8804, 78.0645), "N/A"),
    Hospital("Mohammad Aslam Children Hospital", Location(27.8993, 78.0823), "N/A"),
    Hospital("M S Eye Hospital", Location(27.8783, 78.0679), "N/A")
  ]

  /** `getNearbyHospitals`: the five Aligarh hospitals, whatever the location. */
  function GetNearbyHospitals(location: Location): (r: seq<Hospital>)
    ensures |r| == 5
  {
    NearbyHospitals
  }

  /** The hospital listing ignores its location: every input gives the same list in the same order. */
  lemma NearbyHospitalsIgnoreLocation(loc1: Location, loc2: Location)
    ensures GetNearbyHospitals(loc1) == GetNearbyHospitals(loc2)
    ensures GetNearbyHospitals(loc1)[0].name == "Jawaharlal Nehru Medical College, AMU"
    ensures GetNearbyHospitals(loc1)[4].name == "M S Eye Hospital"
  {
  }
}
