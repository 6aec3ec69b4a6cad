/** Connection rules and search bounds shared by the search engine
    (backend/skypath_backend/constants.py). */
module Rules {

  /** Minimum layover, in minutes, when both adjoining legs are domestic. */
  const MinLayoverDomestic: int := 45

  /** Minimum layover, in minutes, when either adjoining leg is international. */
  const MinLayoverInternational: int := 90

  /** Maximum layover, in minutes: six hours. */
  const MaxLayover: int := 6 * 60

  /** At most two intermediate stops, so at most three legs. */
  const MaxStops: nat := 2
}
