/** The orbit camera controller as seen from src/App.jsx: the calls the
    gesture loop makes on it, and the "Reset View" action. The controller's
    own damping and rotation maths are not modelled; a call is recorded, not
    executed. */
module Camera {

  datatype Vec3 = Vec3(x: real, y: real, z: real)

  /** One call made on the controller, with its argument. */
  datatype ControlCall =
    | RotateLeft(angle: real)
    | RotateUp(angle: real)
    | DollyIn(scale: real)
    | DollyOut(scale: real)
    | Update

  /** Where the camera sits, what it looks at, and its zoom factor. */
  datatype Pose = Pose(position: Vec3, target: Vec3, zoom: real)

  /** The pose set up at start-up: camera at (5, 5, 5) looking at the origin,
      zoom 1. The controller saves this pose when it is created. */
  const Home: Pose := Pose(Vec3(5.0, 5.0, 5.0), Vec3(0.0, 0.0, 0.0), 1.0)

  /** `resetCamera`: when both the camera and the controller exist, the camera
      returns to the start-up pose whatever it was before (the controller's
      reset restores its saved pose); otherwise nothing changes. */
  function ResetCamera(cameraPresent: bool, controlsPresent: bool, p: Pose): (r: Pose)
    ensures cameraPresent && controlsPresent ==>
              r.position == Vec3(5.0, 5.0, 5.0) && r.target == Vec3(0.0, 0.0, 0.0) && r.zoom == 1.0
    ensures !(cameraPresent && controlsPresent) ==> r == p
  {
    if cameraPresent && controlsPresent then Home else p
  }

  /** Resetting twice is the same as resetting once, and the reset pose does
      not depend on where the camera was. */
  lemma ResetIdempotent(cameraPresent: bool, controlsPresent: bool, p: Pose, q: Pose)
    ensures ResetCamera(cameraPresent, controlsPresent, ResetCamera(cameraPresent, controlsPresent, p))
            == ResetCamera(cameraPresent, controlsPresent, p)
    ensures cameraPresent && controlsPresent ==>
              ResetCamera(cameraPresent, controlsPresent, p) == ResetCamera(cameraPresent, controlsPresent, q)
  {
  }
}
